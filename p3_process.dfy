// The process and semaphore system calls of the Project_03 kernel
// (userprog/exception.cc): Exec, Join and Exit over the process table pTab,
// CreateSemaphore, Down and Up over the semaphore table sTab. The calling
// thread enters as its processID and name. The host's answer to opening the
// executable enters as a descriptor (-1 for failure). A blocking
// call is split where it would wait, as the tables split it: the first
// handler step ends where the thread blocks, the second runs once it has
// been woken.
module Project3Process {
  import opened Wrappers
  import opened UserMachine
  import opened Threads
  import opened Bitmap
  import opened ProcessTable
  import opened SemaphoreTable
  import opened FileSystemStub

  const MaxFileLength := 32

  /** The syscall's answer in r2, then IncreasePC. */
  method Reply(m: Machine, result: int)
    requires m.Valid()
    modifies m`registers
    ensures m.Valid() && m.registers == PCAdvanced(old(m.registers)[2 := result])
  {
    m.WriteRegister(2, result);
    m.IncreasePC();
  }

  // ---------------------------------------------------------------------
  // Exec
  // ---------------------------------------------------------------------

  /**
   * r2 is -1 without touching the table when the executable cannot be
   * opened, else ExecUpdate's answer for the name: -1 (refused or table
   * full, table unchanged) or the new process's slot. strcpy into the
   * PCB's 32-byte buffer needs a name shorter than MaxFileLength.
   */
  method HandleExec(m: Machine, pt: PTable, hostFd: int, callerPid: int, callerName: string,
                    threadCreated: bool)
    requires m.Valid() && pt.Valid()
    requires Readable(m.mem, m.registers[4], MaxFileLength)
    requires hostFd != -1 ==> FitsFileName(KernelString(m.mem, m.registers[4], MaxFileLength))
    modifies m`registers, pt, pt.bm.bits, pt.pcb
    ensures m.Valid() && pt.Valid()
    ensures var name := KernelString(old(m.mem), old(m.registers[4]), MaxFileLength);
      var refused := hostFd == -1 || ExecNameRefused(Some(name), callerName)
        || FirstClear(old(pt.bm.bits[..])) == -1;
      && (refused ==>
            && m.registers == PCAdvanced(old(m.registers)[2 := -1])
            && pt.bm.bits[..] == old(pt.bm.bits[..]) && pt.pcb[..] == old(pt.pcb[..]))
      && (!refused ==>
            var id := FirstClear(old(pt.bm.bits[..]));
            && m.registers == PCAdvanced(old(m.registers)[2 := id])
            && pt.bm.bits[..] == old(pt.bm.bits[..])[id := true]
            && pt.pcb[id] != null && pt.pcb[..] == old(pt.pcb[..])[id := pt.pcb[id]]
            && pt.pcb[id].filename == name && pt.pcb[id].parentID == callerPid)
  {
    var result := ExecName(m, pt, hostFd, callerPid, callerName, threadCreated);
    label Answered:
    Reply(m, result);
    assert unchanged@Answered(pt, pt.bm, pt.bm.bits, pt.pcb);
    assert pt.Procs() == old@Answered(pt.Procs());
    assert unchanged@Answered(pt.Procs());
  }

  /** The table part of Exec: open the executable named at r4, then ExecUpdate. */
  method ExecName(m: Machine, pt: PTable, hostFd: int, callerPid: int, callerName: string,
                  threadCreated: bool) returns (result: int)
    requires m.Valid() && pt.Valid()
    requires Readable(m.mem, m.registers[4], MaxFileLength)
    requires hostFd != -1 ==> FitsFileName(KernelString(m.mem, m.registers[4], MaxFileLength))
    modifies pt, pt.bm.bits, pt.pcb
    ensures pt.Valid()
    ensures var name := KernelString(m.mem, m.registers[4], MaxFileLength);
      var refused := hostFd == -1 || ExecNameRefused(Some(name), callerName)
        || FirstClear(old(pt.bm.bits[..])) == -1;
      && (refused ==>
            && result == -1
            && pt.bm.bits[..] == old(pt.bm.bits[..]) && pt.pcb[..] == old(pt.pcb[..]))
      && (!refused ==>
            var id := FirstClear(old(pt.bm.bits[..]));
            && result == id
            && pt.bm.bits[..] == old(pt.bm.bits[..])[id := true]
            && pt.pcb[id] != null && pt.pcb[..] == old(pt.pcb[..])[id := pt.pcb[id]]
            && pt.pcb[id].filename == name && pt.pcb[id].parentID == callerPid)
  {
    result := -1;
    var name := UserName(m);
    var executable := OpenUntyped(hostFd);
    if executable != None {
      result := pt.ExecUpdate(Some(name), callerPid, callerName, threadCreated);
    }
  }

  // ---------------------------------------------------------------------
  // Join
  // ---------------------------------------------------------------------

  /**
   * First step of Join(r4): -1 in r2 and the PC advanced when the id is
   * not a live child of the caller; otherwise the caller now waits for the
   * child (registers untouched) and its wait counter has grown by one.
   */
  method HandleJoinBegin(m: Machine, pt: PTable, callerPid: int) returns (waiting: bool)
    requires m.Valid() && pt.Valid()
    requires 0 <= callerPid < pt.psize && pt.pcb[callerPid] != null
    modifies m`registers, pt.Slot(callerPid)`numwait, pt.Slot(callerPid)`mutex
    ensures m.Valid() && pt.Valid()
    ensures waiting <==> pt.CanJoin(old(m.registers[4]), callerPid)
    ensures !waiting ==> m.registers == PCAdvanced(old(m.registers)[2 := -1])
    ensures waiting ==> m.registers == old(m.registers)
    ensures pt.pcb[callerPid].numwait == old(pt.pcb[callerPid].numwait) + (if waiting then 1 else 0)
  {
    var id := m.ReadRegister(4);
    var ok := pt.JoinBegin(id, callerPid);
    if !ok {
      m.WriteRegister(2, -1);
      m.IncreasePC();
      return false;
    }
    waiting := true;
  }

  /**
   * Second step of Join, once the child has released joinsem: r2 gets the
   * exit code the child stored, the PC advances, and the child may now
   * leave (its exitsem grows by one).
   */
  method HandleJoinEnd(m: Machine, pt: PTable)
    requires m.Valid() && pt.Valid()
    requires 0 <= m.registers[4] < pt.psize && pt.pcb[m.registers[4]] != null
    requires pt.pcb[m.registers[4]].joinsem > 0
    modifies m`registers, pt.Slot(m.registers[4])`joinsem, pt.Slot(m.registers[4])`exitsem
    ensures m.Valid() && pt.Valid()
    ensures var child := pt.pcb[old(m.registers[4])];
      && m.registers == PCAdvanced(old(m.registers)[2 := old(child.exitcode)])
      && child.exitsem == old(child.exitsem) + 1
      && child.joinsem == old(child.joinsem) - 1
  {
    var id := m.ReadRegister(4);
    var exitcode := pt.JoinEnd(id);
    m.WriteRegister(2, exitcode);
    m.IncreasePC();
  }

  // ---------------------------------------------------------------------
  // Exit
  // ---------------------------------------------------------------------

  /** Where Handle_SC_Exit leaves the calling thread. */
  datatype ExitOutcome =
    | Continued        // non-zero status: reported, PC advanced, the thread runs on
    | MachineHalted    // process 0: ExitUpdate halts the machine
    | Finished         // r2 holds ExitUpdate's -1 and the thread has finished
    | WaitingForParent // waiting for the parent's exitsem (HandleExitEnd)

  /**
   * First step of Exit(r4). A non-zero status only advances the PC, never
   * calling ExitUpdate. Status 0 runs ExitUpdate(0) for the caller: process
   * 0 halts the machine, an unmarked slot writes -1 and finishes the
   * thread, a live process stores code 0, releases its joiner and waits
   * for the parent. FreeSpace and Finish do not return to the handler, so
   * its final IncreasePC is never reached on those paths.
   */
  method HandleExitBegin(m: Machine, pt: PTable, callerPid: int) returns (outcome: ExitOutcome)
    requires m.Valid() && pt.Valid() && 0 <= callerPid < pt.psize
    requires callerPid != 0 && pt.pcb[callerPid] != null ==> pt.ParentInTable(callerPid)
    modifies m`registers, pt.ExitFrame(callerPid)`exitcode, pt.ExitFrame(callerPid)`joinsem,
      pt.ExitFrame(callerPid)`numwait, pt.ExitFrame(callerPid)`mutex
    ensures m.Valid() && pt.Valid()
    ensures old(m.registers[4]) != 0 <==> outcome == Continued
    ensures outcome == Continued ==>
      m.registers == PCAdvanced(old(m.registers)) && unchanged(pt.ExitFrame(callerPid))
    ensures outcome == MachineHalted <==> old(m.registers[4]) == 0 && callerPid == 0
    ensures outcome == MachineHalted ==> m.registers == old(m.registers)
    ensures outcome == Finished <==>
      old(m.registers[4]) == 0 && callerPid != 0 && !old(pt.bm.bits[callerPid])
    ensures outcome == Finished ==> m.registers == old(m.registers)[2 := -1]
    ensures outcome == WaitingForParent ==>
      && m.registers == old(m.registers)
      && pt.pcb[callerPid] != null && pt.ParentInTable(callerPid)
      && pt.pcb[callerPid].parentID == old(pt.pcb[callerPid].parentID)
    ensures outcome == WaitingForParent ==>
      var child, parent := pt.pcb[callerPid], pt.pcb[pt.pcb[callerPid].parentID];
      && child.exitcode == 0
      && child.joinsem == old(child.joinsem) + 1
      && child.exitsem == old(child.exitsem)
      && parent.numwait == (if old(parent.numwait) > 0 then old(parent.numwait) - 1 else old(parent.numwait))
      && parent.mutex == old(parent.mutex)
      && (child != parent ==>
           child.numwait == old(child.numwait) && parent.exitcode == old(parent.exitcode)
           && parent.joinsem == old(parent.joinsem))
  {
    var exitStatus := m.ReadRegister(4);
    if exitStatus != 0 {
      m.IncreasePC();
      return Continued;
    }
    var phase := pt.ExitBegin(callerPid, exitStatus);
    match phase
    case Halted =>
      outcome := MachineHalted;
    case Rejected =>
      m.WriteRegister(2, -1);
      outcome := Finished;
    case AwaitingParent =>
      outcome := WaitingForParent;
  }

  /**
   * Second step of Exit, once the parent has released exitsem: the slot is
   * freed, r2 gets the stored exit code, and the thread finishes.
   */
  method HandleExitEnd(m: Machine, pt: PTable, callerPid: int)
    requires m.Valid() && pt.Valid() && 0 <= callerPid < pt.psize && pt.pcb[callerPid] != null
    requires pt.pcb[callerPid].exitsem > 0
    modifies m`registers, pt.bm.bits, pt.pcb, pt.Slot(callerPid)`exitsem
    ensures m.Valid() && pt.Valid()
    ensures m.registers == old(m.registers)[2 := old(pt.pcb[callerPid].exitcode)]
    ensures pt.bm.bits[..] == old(pt.bm.bits[..])[callerPid := false]
    ensures pt.pcb[..] == old(pt.pcb[..])[callerPid := null]
  {
    var res := pt.ExitEnd(callerPid);
    m.WriteRegister(2, res);
  }

  // ---------------------------------------------------------------------
  // Semaphores
  // ---------------------------------------------------------------------

  /** User2System(r4, MaxFileLength) read as the C string the table compares. */
  method UserName(m: Machine) returns (name: seq<CByte>)
    requires m.Valid() && Readable(m.mem, m.registers[4], MaxFileLength)
    ensures name == KernelString(m.mem, m.registers[4], MaxFileLength)
  {
    var virtAddr := m.ReadRegister(4);
    var buffer := m.User2System(virtAddr, MaxFileLength);
    KernelBufferString(m.mem, virtAddr, MaxFileLength);
    name := CStr(buffer);
  }

  /**
   * CreateSemaphore(r4 name, r5 value): r2 gets Create's answer, -1 when a
   * semaphore of that name exists or the table is full, else 0 with the
   * lowest free slot holding the new semaphore.
   */
  method HandleCreateSemaphore(m: Machine, st: STable)
    requires m.Valid() && st.Valid()
    requires Readable(m.mem, m.registers[4], MaxFileLength)
    modifies m`registers, st.bm.bits, st.semTab
    ensures m.Valid() && st.Valid()
    ensures var name := KernelString(old(m.mem), old(m.registers[4]), MaxFileLength);
      var refused := FirstNamed(old(st.Names()), name) != -1 || FirstClear(old(st.bm.bits[..])) == -1;
      && m.registers == PCAdvanced(old(m.registers)[2 := if refused then -1 else 0])
      && (refused ==> st.bm.bits[..] == old(st.bm.bits[..]) && st.semTab[..] == old(st.semTab[..]))
      && (!refused ==>
            var k := FirstClear(old(st.bm.bits[..]));
            && st.bm.bits[..] == old(st.bm.bits[..])[k := true]
            && st.semTab[k] != null && st.semTab[..] == old(st.semTab[..])[k := st.semTab[k]]
            && st.semTab[k].name == name && st.semTab[k].count == old(m.registers[5]))
  {
    var result := -1;
    var semval := m.ReadRegister(5);
    var name := UserName(m);
    result := st.Create(name, semval);
    m.WriteRegister(2, result);
    m.IncreasePC();
  }

  /** The semaphore part of Down (up false) and Up (up true) on the name at r4. */
  method SignalByName(m: Machine, st: STable, up: bool) returns (result: int)
    requires m.Valid() && st.Valid()
    requires Readable(m.mem, m.registers[4], MaxFileLength)
    requires var k := FirstNamed(st.Names(), KernelString(m.mem, m.registers[4], MaxFileLength));
      !up && k != -1 ==> st.Counts()[k] > 0
    modifies st.Sems()
    ensures st.Valid() && st.Names() == old(st.Names())
    ensures var name := KernelString(m.mem, m.registers[4], MaxFileLength);
      && result == (if FirstNamed(old(st.Names()), name) == -1 then -1 else 0)
      && st.Counts() == Adjusted(old(st.Names()), old(st.Counts()), name, if up then 1 else -1)
  {
    var name := UserName(m);
    if up {
      result := st.Up(name);
    } else {
      result := st.Down(name);
    }
  }

  /**
   * Down(r4 name): r2 gets -1 for an unknown name, else 0 after a P on the
   * first semaphore of that name. A P that would block (count 0) belongs
   * to the scheduler and is excluded.
   */
  method HandleDown(m: Machine, st: STable)
    requires m.Valid() && st.Valid()
    requires Readable(m.mem, m.registers[4], MaxFileLength)
    requires var k := FirstNamed(st.Names(), KernelString(m.mem, m.registers[4], MaxFileLength));
      k != -1 ==> st.Counts()[k] > 0
    modifies m`registers, st.Sems()
    ensures m.Valid() && st.Valid() && st.Names() == old(st.Names())
    ensures var name := KernelString(old(m.mem), old(m.registers[4]), MaxFileLength);
      && m.registers == PCAdvanced(old(m.registers)[2 := if FirstNamed(old(st.Names()), name) == -1 then -1 else 0])
      && st.Counts() == Adjusted(old(st.Names()), old(st.Counts()), name, -1)
  {
    var result := SignalByName(m, st, false);
    label Answered:
    Reply(m, result);
    assert unchanged@Answered(st, st.semTab, st.bm, st.bm.bits);
    assert st.Sems() == old@Answered(st.Sems());
    assert unchanged@Answered(st.Sems());
  }

  /** Up(r4 name): r2 gets -1 for an unknown name, else 0 after a V. */
  method HandleUp(m: Machine, st: STable)
    requires m.Valid() && st.Valid()
    requires Readable(m.mem, m.registers[4], MaxFileLength)
    modifies m`registers, st.Sems()
    ensures m.Valid() && st.Valid() && st.Names() == old(st.Names())
    ensures var name := KernelString(old(m.mem), old(m.registers[4]), MaxFileLength);
      && m.registers == PCAdvanced(old(m.registers)[2 := if FirstNamed(old(st.Names()), name) == -1 then -1 else 0])
      && st.Counts() == Adjusted(old(st.Names()), old(st.Counts()), name, 1)
  {
    var result := SignalByName(m, st, true);
    label Answered:
    Reply(m, result);
    assert unchanged@Answered(st, st.semTab, st.bm, st.bm.bits);
    assert st.Sems() == old@Answered(st.Sems());
    assert unchanged@Answered(st.Sems());
  }
}
