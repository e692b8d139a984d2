// The process control block of the third project (Project_03 userprog/pcb.cc):
// the base PCB without the pid and JoinStatus fields, with Exec, which creates
// the process's thread, and a GetID that reads the thread's processID.
// Semaphores are integer counters as in module Pcb.
module Pcb3 {
  import opened Wrappers
  import opened Threads

  class PCB {
    var joinsem: int
    var exitsem: int
    var mutex: int
    var exitcode: int
    var numwait: int
    var thread: Option<Thread>
    var filename: string
    var parentID: int

    /** Between calls the wait counter is never negative and the mutex is free. */
    predicate Valid()
      reads this
    {
      numwait >= 0 && mutex == 1 && joinsem >= 0 && exitsem >= 0
    }

    /** callerPid is the processID of the thread running the constructor. */
    constructor (id: int, callerPid: int)
      ensures Valid()
      ensures joinsem == 0 && exitsem == 0 && mutex == 1
      ensures exitcode == 0 && numwait == 0 && thread == None
      ensures parentID == (if id != 0 then callerPid else 0)
      ensures filename == ""
    {
      joinsem, exitsem, mutex := 0, 0, 1;
      exitcode := 0;
      numwait := 0;
      parentID := if id != 0 then callerPid else 0;
      thread := None;
      filename := "";
    }

    /** The thread's processID: defined only once Exec has created the thread. */
    method GetID() returns (r: int)
      requires thread.Some?
      ensures r == thread.value.processID
    {
      r := thread.value.processID;
    }

    method GetNumWait() returns (r: int)
      ensures r == numwait
    {
      r := numwait;
    }

    method GetExitCode() returns (r: int)
      ensures r == exitcode
    {
      r := exitcode;
    }

    method GetFileName() returns (r: string)
      ensures r == filename
    {
      r := filename;
    }

    method GetNameThread() returns (r: string)
      requires thread.Some?
      ensures r == thread.value.name
    {
      r := thread.value.name;
    }

    method SetExitCode(ec: int)
      modifies this`exitcode
      ensures exitcode == ec
    {
      exitcode := ec;
    }

    method SetFileName(name: string)
      requires FitsFileName(name)
      modifies this`filename
      ensures filename == name
    {
      filename := name;
    }

    method IncNumWait()
      requires mutex > 0
      modifies this`numwait, this`mutex
      ensures numwait == old(numwait) + 1
      ensures mutex == old(mutex)
      ensures Valid() <== old(Valid())
    {
      mutex := mutex - 1;
      numwait := numwait + 1;
      mutex := mutex + 1;
    }

    /** Saturating at zero. */
    method DecNumWait()
      requires mutex > 0
      modifies this`numwait, this`mutex
      ensures numwait == if old(numwait) > 0 then old(numwait) - 1 else old(numwait)
      ensures mutex == old(mutex)
      ensures Valid() <== old(Valid())
    {
      mutex := mutex - 1;
      if numwait > 0 {
        numwait := numwait - 1;
      }
      mutex := mutex + 1;
    }

    method JoinWait()
      requires joinsem > 0
      modifies this`joinsem
      ensures joinsem == old(joinsem) - 1
    {
      joinsem := joinsem - 1;
    }

    method JoinRelease()
      modifies this`joinsem
      ensures joinsem == old(joinsem) + 1
    {
      joinsem := joinsem + 1;
    }

    method ExitWait()
      requires exitsem > 0
      modifies this`exitsem
      ensures exitsem == old(exitsem) - 1
    {
      exitsem := exitsem - 1;
    }

    method ExitRelease()
      modifies this`exitsem
      ensures exitsem == old(exitsem) + 1
    {
      exitsem := exitsem + 1;
    }

    /**
     * Creates the process's thread under the mutex. threadCreated is whether
     * `new Thread` gave a non-NULL object; forking the thread is not modelled.
     */
    method Exec(name: string, pID: int, callerPid: int, threadCreated: bool) returns (r: int)
      requires mutex > 0
      modifies this`mutex, this`thread, this`parentID
      ensures mutex == old(mutex)
      ensures !threadCreated ==> r == -1 && parentID == old(parentID) && thread == None
      ensures threadCreated ==> r == pID && thread == Some(Thread(name, pID)) && parentID == callerPid
      ensures Valid() <== old(Valid())
    {
      mutex := mutex - 1;
      if !threadCreated {
        thread := None;
        mutex := mutex + 1;
        return -1;
      }
      thread := Some(Thread(name, pID));
      parentID := callerPid;
      mutex := mutex + 1;
      r := pID;
    }
  }
}
