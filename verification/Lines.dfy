/** What searching a file by lines means, without buffers: split at newlines, keep the lines that
    contain the pattern, report each. */
module Lines {
  import opened Strings

  const COLON: byte := 58

  /** Position of the first newline, or the length if there is none. */
  function LineEnd(s: Bytes): (k: nat)
    ensures k <= |s| && (k < |s| ==> s[k] == NEWLINE) && forall i :: 0 <= i < k ==> s[i] != NEWLINE
  {
    if s == [] || s[0] == NEWLINE then 0 else 1 + LineEnd(s[1..])
  }

  /** What follows the first line. */
  function AfterLine(s: Bytes): Bytes { if LineEnd(s) < |s| then s[LineEnd(s) + 1..] else [] }

  function Split(s: Bytes): seq<Bytes>
    decreases |s|
  {
    if s == [] then [] else [s[..LineEnd(s)]] + Split(AfterLine(s))
  }

  function Joined(lines: seq<Bytes>): Bytes {
    if lines == [] then [] else lines[0] + [NEWLINE] + Joined(lines[1..])
  }

  lemma LineParts(s: Bytes)
    requires s != []
    ensures LineEnd(s) < |s| ==> s == s[..LineEnd(s)] + [NEWLINE] + AfterLine(s)
    ensures LineEnd(s) < |s| && AfterLine(s) != [] ==> AfterLine(s)[|AfterLine(s)| - 1] == s[|s| - 1]
    ensures LineEnd(s) == |s| ==> AfterLine(s) == [] && s[..LineEnd(s)] == s && s[|s| - 1] != NEWLINE
    ensures NEWLINE !in s[..LineEnd(s)]
  {
    hide LineEnd;
    var k := LineEnd(s);
    if k < |s| {
      assert s == s[..k] + [s[k]] + s[k + 1..];
    }
  }

  lemma SplitStep(s: Bytes)
    requires s != []
    ensures Joined(Split(s)) == s[..LineEnd(s)] + [NEWLINE] + Joined(Split(AfterLine(s)))
    ensures Joined(Split([])) == []
  {
    assert Split(s)[1..] == Split(AfterLine(s));
  }

  /** Splitting loses nothing and invents nothing: the lines, each with its newline, are the file,
      except that a last line without a newline gets one. */
  lemma {:induction false} SplitJoins(s: Bytes)
    ensures Joined(Split(s)) == if s == [] || s[|s| - 1] == NEWLINE then s else s + [NEWLINE]
    decreases |s|
  {
    if s != [] {
      hide LineEnd, AfterLine, Split, Joined;
      var line, rest := s[..LineEnd(s)] + [NEWLINE], AfterLine(s);
      LineParts(s);
      SplitJoins(rest);
      SplitStep(s);
      if LineEnd(s) == |s| {
        assert line + [] == line == s + [NEWLINE];
      } else if rest == [] {
        assert line + [] == line == s;
      } else {
        Regroup(line, rest, s);
      }
    }
  }

  lemma Regroup(line: Bytes, rest: Bytes, s: Bytes)
    requires s == line + rest
    ensures line + (rest + [NEWLINE]) == s + [NEWLINE]
  {
  }

  lemma {:induction false} SplitLines(s: Bytes)
    ensures forall i :: 0 <= i < |Split(s)| ==> NEWLINE !in Split(s)[i]
    decreases |s|
  {
    if s != [] {
      LineParts(s);
      SplitLines(AfterLine(s));
    }
  }

  ghost predicate OccursAt(pat: Bytes, line: Bytes, i: nat) { i + |pat| <= |line| && line[i..i + |pat|] == pat }

  ghost predicate Contains(line: Bytes, pat: Bytes) { exists i: nat :: OccursAt(pat, line, i) }

  function Report(name: Bytes, line: Bytes): Bytes { name + [COLON] + line + [NEWLINE] }

  lemma ReportIs(name: Bytes, line: Bytes)
    ensures Report(name, line) == name + Ascii(":") + line + Ascii("\n")
  {
    assert Ascii(":") == [58] && Ascii("\n") == [10];
  }

  /** The reports of the lines that contain the pattern, in order. */
  ghost function Filter(lines: seq<Bytes>, pat: Bytes, name: Bytes): Bytes {
    if lines == [] then []
    else (if Contains(lines[0], pat) then Report(name, lines[0]) else []) + Filter(lines[1..], pat, name)
  }

  ghost function Grep(s: Bytes, pat: Bytes, name: Bytes): Bytes { Filter(Split(s), pat, name) }

  /** Reports of one line, if any. */
  ghost function LineOut(line: Bytes, pat: Bytes, name: Bytes): Bytes {
    if Contains(line, pat) then Report(name, line) else []
  }

  lemma GrepStep(s: Bytes, pat: Bytes, name: Bytes)
    ensures s != [] ==> Grep(s, pat, name) == LineOut(s[..LineEnd(s)], pat, name) + Grep(AfterLine(s), pat, name)
    ensures Grep([], pat, name) == []
  {
    if s != [] {
      assert Split(s)[1..] == Split(AfterLine(s));
    }
  }

  /** No line is longer than `n` bytes. */
  predicate ShortLines(s: Bytes, n: nat)
    decreases |s|
  {
    s == [] || (LineEnd(s) <= n && ShortLines(AfterLine(s), n))
  }

  /** The first line, given where it ends. */
  lemma {:induction false} FirstLine(s: Bytes, k: nat)
    requires k <= |s| && forall i :: 0 <= i < k ==> s[i] != NEWLINE
    requires k < |s| ==> s[k] == NEWLINE
    ensures LineEnd(s) == k && AfterLine(s) == if k < |s| then s[k + 1..] else []
  {
    if k > 0 { FirstLine(s[1..], k - 1); }
  }

  lemma LongLine(s: Bytes, n: nat)
    requires n <= |s| && forall i :: 0 <= i < n ==> s[i] != NEWLINE
    ensures LineEnd(s) >= n
  {
  }

  lemma EmptyLineOut(pat: Bytes, name: Bytes)
    requires pat != []
    ensures LineOut([], pat, name) == []
  {
    forall i: nat
      ensures !OccursAt(pat, [], i)
    {
    }
  }
}
