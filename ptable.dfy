// The process table (userprog/ptable.cc): MAX_PROCESS PCB slots whose use is
// recorded in a bitmap, and the Exec/Join/Exit bookkeeping. The table's
// bmsem semaphore is an integer counter. The blocking calls are split into
// atomic steps: JoinUpdate is JoinBegin (validate, count the waiter) then
// JoinEnd (needs the child's joinsem), ExitUpdate is ExitBegin (store the code,
// signal the joiner) then ExitEnd (needs the child's exitsem, frees the slot).
// The current thread is passed in as its processID and name.
module ProcessTable {
  import opened Wrappers
  import opened Threads
  import opened Bitmap
  import opened Pcb3

  const MAX_PROCESS := 10
  const SCHEDULER_NAME := "./test/scheduler"

  /** The result of the first step of ExitUpdate. */
  datatype ExitPhase =
    | Halted         // process 0: the machine halts, ExitUpdate returns 0
    | Rejected       // the caller's slot is not marked: ExitUpdate returns -1
    | AwaitingParent // code stored, joiner released; ExitEnd finishes the call

  /** What ExitUpdate returns for a phase that ends the call at once. */
  function ExitPhaseResult(p: ExitPhase): (r: int)
    requires !p.AwaitingParent?
    ensures r == 0 <==> p.Halted?
    ensures r == -1 <==> p.Rejected?
  {
    match p
    case Halted => 0
    case Rejected => -1
  }

  /** Whether ExecUpdate refuses the name before looking for a slot. */
  predicate ExecNameRefused(name: Option<string>, callerName: string)
  {
    name.None? || name.value == SCHEDULER_NAME || name.value == callerName
  }

  /**
   * The PCB ExecUpdate stores in slot id: constructed, named, given the
   * caller as parent, then Exec'd. Building it before storing it is the
   * same as ExecUpdate's statement order, since nothing else reads the slot
   * in between.
   */
  method NewProcess(id: int, name: string, callerPid: int, threadCreated: bool) returns (p: PCB)
    requires FitsFileName(name)
    ensures fresh(p) && p.Valid()
    ensures p.filename == name && p.parentID == callerPid
    ensures p.thread == (if threadCreated then Some(Thread(name, id)) else None)
  {
    p := new PCB(id, callerPid);
    p.SetFileName(name);
    p.parentID := callerPid;
    var _ := p.Exec(name, id, callerPid, threadCreated);
  }

  class PTable {
    const psize: int
    const bm: BitMap
    const pcb: array<PCB?>
    var bmsem: int

    /** The PCB objects currently held by the table. */
    ghost function Procs(): set<PCB>
      reads this, pcb
    {
      set i | 0 <= i < pcb.Length && pcb[i] != null :: pcb[i]
    }

    /**
     * A slot is marked exactly when it holds a PCB, slots past psize are
     * empty, no PCB sits in two slots, every PCB is between calls, and the
     * table's semaphore is free.
     */
    ghost predicate Valid()
      reads this, bm, bm.bits, pcb, Procs()
    {
      && 1 <= psize <= MAX_PROCESS
      && bm.bits.Length == psize
      && pcb.Length == MAX_PROCESS
      && bmsem == 1
      && (forall i :: 0 <= i < psize ==> (bm.bits[i] <==> pcb[i] != null))
      && (forall i :: psize <= i < MAX_PROCESS ==> pcb[i] == null)
      && (forall i, j :: 0 <= i < j < MAX_PROCESS && pcb[i] != null ==> pcb[i] != pcb[j])
      && (forall i :: 0 <= i < MAX_PROCESS && pcb[i] != null ==> pcb[i].Valid())
    }

    /**
     * A negative size leaves the C++ object uninitialised and a zero size
     * makes Mark(0) fail its range assertion; a size above MAX_PROCESS lets
     * Find hand out slots past the end of pcb[]. Hence 1 <= size <= MAX_PROCESS.
     */
    constructor (size: int)
      requires 1 <= size <= MAX_PROCESS
      ensures Valid()
      ensures psize == size && fresh(bm) && fresh(bm.bits) && fresh(pcb)
      ensures bm.bits[..] == [true] + seq(size - 1, _ => false)
      ensures pcb[0] != null && fresh(pcb[0])
      ensures pcb[0].filename == SCHEDULER_NAME && pcb[0].parentID == -1
      ensures forall i :: 1 <= i < MAX_PROCESS ==> pcb[i] == null
    {
      var b := new BitMap(size);
      b.Mark(0);
      var table := new PCB?[MAX_PROCESS](_ => null);
      var first := new PCB(0, 0);
      first.SetFileName(SCHEDULER_NAME);
      first.parentID := -1;
      table[0] := first;
      psize := size;
      bm := b;
      pcb := table;
      bmsem := 1;
      new;
      assert bm.bits[..] == [true] + seq(size - 1, _ => false);
    }

    method GetFreeSlot() returns (r: int)
      modifies bm.bits
      ensures r == FirstClear(old(bm.bits[..]))
      ensures r == -1 ==> bm.bits[..] == old(bm.bits[..])
      ensures r != -1 ==> bm.bits[..] == old(bm.bits[..])[r := true]
    {
      r := bm.Find();
    }

    method IsExist(pID: int) returns (b: bool)
      requires Valid() && 0 <= pID < psize
      ensures b == bm.bits[pID]
      ensures b <==> pcb[pID] != null
    {
      b := bm.Test(pID);
    }

    method Remove(pID: int)
      requires Valid() && 0 <= pID < psize
      modifies bm.bits, pcb
      ensures Valid()
      ensures bm.bits[..] == old(bm.bits[..])[pID := false]
      ensures pcb[..] == old(pcb[..])[pID := null]
    {
      bm.Clear(pID);
      if pcb[pID] != null {
        pcb[pID] := null;
      }
    }

    method GetFileName(pID: int) returns (name: string)
      requires 0 <= pID < pcb.Length && pcb[pID] != null
      ensures name == pcb[pID].filename
    {
      name := pcb[pID].GetFileName();
    }

    /**
     * Loads a new process. threadCreated is whether the PCB's Exec obtained
     * a thread; the new process's thread and address space are not modelled.
     */
    method ExecUpdate(name: Option<string>, callerPid: int, callerName: string, threadCreated: bool)
      returns (r: int)
      requires Valid()
      requires name.Some? ==> FitsFileName(name.value)
      modifies this, bm.bits, pcb
      ensures Valid()
      ensures bmsem == old(bmsem)
      ensures ExecNameRefused(name, callerName) || FirstClear(old(bm.bits[..])) == -1 ==>
        r == -1 && bm.bits[..] == old(bm.bits[..]) && pcb[..] == old(pcb[..])
      ensures !ExecNameRefused(name, callerName) && FirstClear(old(bm.bits[..])) != -1 ==>
        && r == FirstClear(old(bm.bits[..]))
        && bm.bits[..] == old(bm.bits[..])[r := true]
        && pcb[r] != null && fresh(pcb[r])
        && pcb[..] == old(pcb[..])[r := pcb[r]]
        && pcb[r].filename == name.value
        && pcb[r].parentID == callerPid
        && pcb[r].thread == (if threadCreated then Some(Thread(name.value, r)) else None)
    {
      bmsem := bmsem - 1;
      if name.None? {
        bmsem := bmsem + 1;
        return -1;
      }
      if name.value == SCHEDULER_NAME || name.value == callerName {
        bmsem := bmsem + 1;
        return -1;
      }
      var id := GetFreeSlot();
      if id == -1 {
        bmsem := bmsem + 1;
        return -1;
      }
      var p := NewProcess(id, name.value, callerPid, threadCreated);
      pcb[id] := p;
      bmsem := bmsem + 1;
      r := id;
    }

    /** The PCB in slot i, as a frame: empty when the slot is NULL. */
    function Slot(i: int): set<PCB>
      reads this, pcb
    {
      if 0 <= i < pcb.Length && pcb[i] != null then {pcb[i]} else {}
    }

    /** JoinUpdate's checks: a live child of the calling process. */
    predicate CanJoin(id: int, callerPid: int)
      reads this, pcb, Procs()
    {
      0 <= id < psize && id < pcb.Length && pcb[id] != null && pcb[id].parentID == callerPid
    }

    /**
     * First step of JoinUpdate. On false JoinUpdate returns -1; on true the
     * caller's wait counter has grown and the caller waits on the child's
     * joinsem (JoinEnd). The caller must be a live process of the table.
     */
    method JoinBegin(id: int, callerPid: int) returns (ok: bool)
      requires Valid()
      requires 0 <= callerPid < psize && pcb[callerPid] != null
      modifies Slot(callerPid)`numwait, Slot(callerPid)`mutex
      ensures Valid()
      ensures ok <==> CanJoin(id, callerPid)
      ensures pcb[callerPid].numwait == old(pcb[callerPid].numwait) + (if ok then 1 else 0)
      ensures var p := pcb[callerPid];
        p.mutex == old(p.mutex) && p.joinsem == old(p.joinsem) && p.exitsem == old(p.exitsem)
        && p.exitcode == old(p.exitcode) && p.parentID == old(p.parentID)
    {
      if id < 0 || id >= psize || pcb[id] == null {
        return false;
      }
      if pcb[id].parentID != callerPid {
        return false;
      }
      pcb[pcb[id].parentID].IncNumWait();
      ok := true;
    }

    /** Second step of JoinUpdate: the child has signalled joinsem. */
    method JoinEnd(id: int) returns (exitcode: int)
      requires Valid() && 0 <= id < psize && pcb[id] != null
      requires pcb[id].joinsem > 0
      modifies Slot(id)`joinsem, Slot(id)`exitsem
      ensures Valid()
      ensures exitcode == pcb[id].exitcode == old(pcb[id].exitcode)
      ensures pcb[id].numwait == old(pcb[id].numwait) && pcb[id].parentID == old(pcb[id].parentID)
      ensures pcb[id].joinsem == old(pcb[id].joinsem) - 1
      ensures pcb[id].exitsem == old(pcb[id].exitsem) + 1
    {
      pcb[id].JoinWait();
      exitcode := pcb[id].GetExitCode();
      pcb[id].ExitRelease();
    }

    /** The parent's PCB of a live process, which ExitUpdate dereferences. */
    predicate ParentInTable(pID: int)
      reads this, pcb, Procs()
      requires 0 <= pID < pcb.Length && pcb[pID] != null
    {
      0 <= pcb[pID].parentID < pcb.Length && pcb[pcb[pID].parentID] != null
    }

    /** The objects ExitBegin may change: the process's own PCB and its parent's. */
    function ExitFrame(pID: int): set<PCB>
      reads this, pcb, Procs()
      requires 0 <= pID < pcb.Length
    {
      if pcb[pID] == null then {}
      else if 0 <= pcb[pID].parentID < pcb.Length && pcb[pcb[pID].parentID] != null
      then {pcb[pID], pcb[pcb[pID].parentID]}
      else {pcb[pID]}
    }

    /**
     * First step of ExitUpdate for the process pID. The C++ dereferences
     * the parent's slot, so a live non-root caller needs its parent in the
     * table.
     */
    method ExitBegin(pID: int, exitcode: int) returns (phase: ExitPhase)
      requires Valid() && 0 <= pID < psize
      requires pID != 0 && pcb[pID] != null ==> ParentInTable(pID)
      modifies ExitFrame(pID)`exitcode, ExitFrame(pID)`joinsem, ExitFrame(pID)`numwait, ExitFrame(pID)`mutex
      ensures Valid()
      ensures phase == Halted <==> pID == 0
      ensures phase == Rejected <==> pID != 0 && !old(bm.bits[pID])
      ensures phase != AwaitingParent ==> unchanged(ExitFrame(pID))
      ensures phase == AwaitingParent ==>
        pcb[pID] != null && ParentInTable(pID) && pcb[pID].parentID == old(pcb[pID].parentID)
      ensures phase == AwaitingParent ==>
        var child, parent := pcb[pID], pcb[pcb[pID].parentID];
        && child.exitcode == exitcode
        && child.joinsem == old(child.joinsem) + 1
        && child.exitsem == old(child.exitsem)
        && parent.numwait == (if old(parent.numwait) > 0 then old(parent.numwait) - 1 else old(parent.numwait))
        && parent.mutex == old(parent.mutex)
        && (child != parent ==>
             child.numwait == old(child.numwait) && parent.exitcode == old(parent.exitcode)
             && parent.joinsem == old(parent.joinsem))
    {
      if pID == 0 {
        return Halted;
      }
      var live := IsExist(pID);
      if !live {
        return Rejected;
      }
      pcb[pID].SetExitCode(exitcode);
      pcb[pcb[pID].parentID].DecNumWait();
      pcb[pID].JoinRelease();
      phase := AwaitingParent;
    }

    /** Second step of ExitUpdate: the joiner has signalled exitsem. */
    method ExitEnd(pID: int) returns (r: int)
      requires Valid() && 0 <= pID < psize && pcb[pID] != null
      requires pcb[pID].exitsem > 0
      modifies bm.bits, pcb, Slot(pID)`exitsem
      ensures Valid()
      ensures r == old(pcb[pID].exitcode)
      ensures bm.bits[..] == old(bm.bits[..])[pID := false]
      ensures pcb[..] == old(pcb[..])[pID := null]
    {
      pcb[pID].ExitWait();
      r := pcb[pID].exitcode;
      Remove(pID);
    }
  }
}
