/** File descriptors as they sit in a process control block. */
module FileTable {
  const MAX_FD_NUM := 7
  const FREE: int := -1
  const IN_USE: int := 1

  /** Which jump table an entry points at. */
  datatype Kind = Stdin | Stdout | Rtc | Directory | Regular

  datatype FileDesc = FileDesc(kind: Kind, inode: nat, position: nat, flags: int)

  /** The table of a new process: only the two terminal descriptors are in use. `junk` is what
      the uninitialised entries of the control block held. */
  function NewTable(junk: seq<FileDesc>): (t: seq<FileDesc>)
    requires |junk| == MAX_FD_NUM + 1
    ensures |t| == MAX_FD_NUM + 1 && OnlyTerminals(t)
  {
    seq(MAX_FD_NUM + 1, i requires 0 <= i < MAX_FD_NUM + 1 =>
      if i == 0 then junk[i].(kind := Stdin, flags := IN_USE)
      else if i == 1 then junk[i].(kind := Stdout, flags := IN_USE)
      else junk[i].(flags := FREE))
  }

  predicate OnlyTerminals(t: seq<FileDesc>)
    requires |t| == MAX_FD_NUM + 1
  {
    && t[0].kind == Stdin && t[0].flags == IN_USE
    && t[1].kind == Stdout && t[1].flags == IN_USE
    && forall i :: 2 <= i <= MAX_FD_NUM ==> t[i].flags == FREE
  }
}
