// The stub FileSystem of the Project_03 kernel (filesys/filesys.h under
// FILESYS_STUB): a table of MAX_FILE open-file slots, seeded with the
// console input and output, over host files. Every host call
// (OpenForWrite, OpenForReadWrite) enters as the file descriptor it
// returned, -1 meaning failure. openfile.h is not part of this model; an
// OpenFile is its descriptor, its type tag and its current position.
module FileSystemStub {
  import opened Wrappers

  const MAX_FILE := 15

  // open modes (the type argument of Open)
  const READ_WRITE := 0
  const READ_ONLY := 1
  const STDIN := 2
  const STDOUT := 3

  datatype OpenFile = OpenFile(fd: int, fileType: int, pos: int)

  /** The slot GetAllocatedSlot picks: the lowest empty one in [2, MAX_FILE), or -1. */
  function AllocatedSlot(table: seq<Option<OpenFile>>): (r: int)
    requires |table| == MAX_FILE
    ensures r == -1 <==> forall i :: 2 <= i < MAX_FILE ==> table[i].Some?
    ensures r != -1 ==> 2 <= r < MAX_FILE && table[r].None? && forall i :: 2 <= i < r ==> table[i].Some?
  {
    EmptyFrom(table, 2)
  }

  function EmptyFrom(table: seq<Option<OpenFile>>, i: nat): (r: int)
    requires i <= |table|
    decreases |table| - i
    ensures r == -1 <==> forall k :: i <= k < |table| ==> table[k].Some?
    ensures r != -1 ==> i <= r < |table| && table[r].None? && forall k :: i <= k < r ==> table[k].Some?
  {
    if i == |table| then -1 else if table[i].None? then i else EmptyFrom(table, i + 1)
  }

  /** Create: succeeds exactly when the host could open the name for writing. */
  function CreateResult(hostFd: int): (ok: bool)
    ensures ok <==> hostFd != -1
  {
    hostFd != -1
  }

  /**
   * Open(name, type): no file when the host open fails, else a file on the
   * host descriptor tagged with the requested type, at position 0.
   */
  function OpenTyped(hostFd: int, fileType: int): (f: Option<OpenFile>)
    ensures f.None? <==> hostFd == -1
    ensures f.Some? ==> f.value.fd == hostFd && f.value.fileType == fileType && f.value.pos == 0
  {
    if hostFd == -1 then None else Some(OpenFile(hostFd, fileType, 0))
  }

  /**
   * Open(name) without a type. The default type of the one-argument
   * OpenFile constructor is not visible; it is taken as READ_WRITE. Its
   * only caller (Exec) tests the result for NULL and nothing else.
   */
  function OpenUntyped(hostFd: int): (f: Option<OpenFile>)
    ensures f.None? <==> hostFd == -1
    ensures f.Some? ==> f.value.fd == hostFd && f.value.pos == 0
  {
    OpenTyped(hostFd, READ_WRITE)
  }

  class FileSystem {
    const fileTable: array<Option<OpenFile>>
    var index: int

    ghost predicate Valid()
      reads this
    {
      fileTable.Length == MAX_FILE
    }

    /**
     * Empties all slots, creates the files "stdin" and "stdout" (whether
     * that succeeds is ignored), then opens them into slots 0 and 1 with
     * types STDIN and STDOUT; index ends at 2.
     */
    constructor (stdinFd: int, stdoutFd: int)
      ensures Valid() && fresh(fileTable)
      ensures fileTable[0] == OpenTyped(stdinFd, STDIN)
      ensures fileTable[1] == OpenTyped(stdoutFd, STDOUT)
      ensures forall i :: 2 <= i < MAX_FILE ==> fileTable[i].None?
      ensures index == 2
    {
      var table := new Option<OpenFile>[MAX_FILE];
      var i := 0;
      while i < MAX_FILE
        invariant 0 <= i <= MAX_FILE
        invariant forall k :: 0 <= k < i ==> table[k].None?
      {
        table[i] := None;
        i := i + 1;
      }
      fileTable := table;
      index := 0;
      new;
      fileTable[index] := OpenTyped(stdinFd, STDIN);
      index := index + 1;
      fileTable[index] := OpenTyped(stdoutFd, STDOUT);
      index := index + 1;
    }

    /** The lowest empty slot in [2, MAX_FILE), or -1; never 0 or 1. */
    method GetAllocatedSlot() returns (r: int)
      requires Valid()
      ensures r == AllocatedSlot(fileTable[..])
    {
      var i := 2;
      while i < 15
        invariant 2 <= i <= MAX_FILE
        invariant forall k :: 2 <= k < i ==> fileTable[k].Some?
        invariant EmptyFrom(fileTable[..], 2) == EmptyFrom(fileTable[..], i)
      {
        if fileTable[i].None? {
          return i;
        }
        i := i + 1;
      }
      return -1;
    }
  }
}
