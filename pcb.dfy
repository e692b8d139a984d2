// The process control block of the base kernel (userprog/pcb.cc). Each of its
// three Nachos semaphores is an integer counter: V adds 1, P needs a positive
// count and subtracts 1 (the blocking of P is not modelled; a caller must
// already hold a positive count).
module Pcb {
  import opened Wrappers
  import opened Threads

  class PCB {
    var joinsem: int
    var exitsem: int
    var mutex: int
    var pid: int
    var exitcode: int
    var numwait: int
    var parentID: int
    var thread: Option<Thread>
    var filename: string
    var joinStatus: int

    /** Between calls the wait counter is never negative and the mutex is free. */
    predicate Valid()
      reads this
    {
      numwait >= 0 && mutex == 1 && joinsem >= 0 && exitsem >= 0
    }

    /** callerPid is the processID of the thread running the constructor. */
    constructor (id: int, callerPid: int)
      ensures Valid()
      ensures joinsem == 0 && exitsem == 0 && mutex == 1
      ensures pid == id && exitcode == 0 && numwait == 0
      ensures parentID == (if id != 0 then callerPid else 0)
      ensures thread == None && joinStatus == -1
      ensures filename == ""
    {
      joinsem, exitsem, mutex := 0, 0, 1;
      pid := id;
      exitcode := 0;
      numwait := 0;
      parentID := if id != 0 then callerPid else 0;
      thread := None;
      joinStatus := -1;
      filename := "";
    }

    method GetID() returns (r: int)
      ensures r == pid
    {
      r := pid;
    }

    method GetNumWait() returns (r: int)
      ensures r == numwait
    {
      r := numwait;
    }

    method GetExitCode() returns (r: int)
      ensures r == exitcode
    {
      r := exitcode;
    }

    method GetFileName() returns (r: string)
      ensures r == filename
    {
      r := filename;
    }

    /** The thread's name; the C++ dereferences a NULL thread otherwise. */
    method GetNameThread() returns (r: string)
      requires thread.Some?
      ensures r == thread.value.name
    {
      r := thread.value.name;
    }

    method SetExitCode(ec: int)
      modifies this`exitcode
      ensures exitcode == ec
    {
      exitcode := ec;
    }

    method SetFileName(name: string)
      requires FitsFileName(name)
      modifies this`filename
      ensures filename == name
    {
      filename := name;
    }

    method IncNumWait()
      requires mutex > 0
      modifies this`numwait, this`mutex
      ensures numwait == old(numwait) + 1
      ensures mutex == old(mutex)
      ensures Valid() <== old(Valid())
    {
      mutex := mutex - 1;
      numwait := numwait + 1;
      mutex := mutex + 1;
    }

    /** A test of numwait against zero, so a negative count would still fall. */
    method DecNumWait()
      requires mutex > 0
      modifies this`numwait, this`mutex
      ensures numwait == if old(numwait) != 0 then old(numwait) - 1 else old(numwait)
      ensures mutex == old(mutex)
      ensures Valid() <== old(Valid())
    {
      mutex := mutex - 1;
      if numwait != 0 {
        numwait := numwait - 1;
      }
      mutex := mutex + 1;
    }

    method JoinWait()
      requires joinsem > 0
      modifies this`joinsem
      ensures joinsem == old(joinsem) - 1
    {
      joinsem := joinsem - 1;
    }

    method JoinRelease()
      modifies this`joinsem
      ensures joinsem == old(joinsem) + 1
    {
      joinsem := joinsem + 1;
    }

    method ExitWait()
      requires exitsem > 0
      modifies this`exitsem
      ensures exitsem == old(exitsem) - 1
    {
      exitsem := exitsem - 1;
    }

    method ExitRelease()
      modifies this`exitsem
      ensures exitsem == old(exitsem) + 1
    {
      exitsem := exitsem + 1;
    }
  }
}
