/**
 * The per-process open-file table the file system calls go through: argfd
 * validates a descriptor and fdalloc hands out the lowest free one.  A file
 * reference is a positive number; 0 marks a free slot, as a null pointer
 * does in the table.
 */
module FileTable {
  import opened CStrings

  /** Open files per process. */
  const NOFILE: nat := 16

  /** argfd: the file behind descriptor fd, when fd is in range and in use. */
  function ArgFd(ofile: seq<nat>, fd: int): (r: Option<nat>)
    requires |ofile| == NOFILE
    ensures r.Some? <==> 0 <= fd < NOFILE && ofile[fd] != 0
    ensures r.Some? ==> r.value == ofile[fd] && r.value != 0
  {
    if fd < 0 || fd >= NOFILE || ofile[fd] == 0 then None else Some(ofile[fd])
  }

  /** Each descriptor's answer to fdalloc's test: is its slot free? */
  function FreeDescriptors(ofile: seq<nat>): (r: seq<bool>)
    ensures |r| == |ofile| && forall j :: 0 <= j < |ofile| ==> r[j] == (ofile[j] == 0)
  {
    seq(|ofile|, j requires 0 <= j < |ofile| => ofile[j] == 0)
  }

  /** The lowest free descriptor. */
  function FirstFree(ofile: seq<nat>): (r: Option<nat>)
    ensures r.Some? ==> r.value < |ofile| && ofile[r.value] == 0
    ensures r.Some? ==> forall j :: 0 <= j < r.value ==> ofile[j] != 0
    ensures r.None? ==> forall j :: 0 <= j < |ofile| ==> ofile[j] != 0
  {
    FirstSet(FreeDescriptors(ofile), 0)
  }

  class Proc {
    /** ofile[NOFILE] */
    const ofile: array<nat>

    ghost predicate Valid()
      reads this
    {
      ofile.Length == NOFILE
    }

    constructor ()
      ensures Valid() && fresh(ofile) && forall j :: 0 <= j < NOFILE ==> ofile[j] == 0
    {
      ofile := new nat[NOFILE](_ => 0);
    }

    /** fdalloc(f): f goes into the lowest free slot, whose index is returned; -1 when every slot is taken. */
    method FdAlloc(f: nat) returns (fd: int)
      requires Valid() && f != 0
      modifies ofile
      ensures FirstFree(old(ofile[..])).None? ==> fd == -1 && ofile[..] == old(ofile[..])
      ensures FirstFree(old(ofile[..])).Some? ==>
        fd == FirstFree(old(ofile[..])).value && ofile[..] == old(ofile[..])[fd := f]
    {
      ghost var flags := FreeDescriptors(ofile[..]);
      fd := 0;
      while fd < NOFILE
        invariant 0 <= fd <= NOFILE && ofile[..] == old(ofile[..])
        invariant FirstSet(flags, 0) == FirstSet(flags, fd)
      {
        if ofile[fd] == 0 {
          ofile[fd] := f;
          return fd;
        }
        fd := fd + 1;
      }
      return -1;
    }
  }

  /**
   * A descriptor fdalloc hands out is one argfd then accepts, resolving to
   * the file just installed, and every lower descriptor was already in use.
   */
  lemma AllocatedDescriptorResolves(ofile: seq<nat>, f: nat)
    requires |ofile| == NOFILE && f != 0 && FirstFree(ofile).Some?
    ensures var fd := FirstFree(ofile).value;
      && ArgFd(ofile, fd).None?
      && ArgFd(ofile[fd := f], fd) == Some(f)
      && forall j :: 0 <= j < fd ==> ArgFd(ofile, j).Some? && ArgFd(ofile[fd := f], j) == ArgFd(ofile, j)
  {
  }

  /** fdalloc fails exactly when argfd accepts every descriptor. */
  lemma FullTableHasNoFreeDescriptor(ofile: seq<nat>)
    requires |ofile| == NOFILE
    ensures FirstFree(ofile).None? <==> forall fd :: 0 <= fd < NOFILE ==> ArgFd(ofile, fd).Some?
  {
    if FirstFree(ofile).Some? {
      assert ArgFd(ofile, FirstFree(ofile).value).None?;
    }
  }
}
