// The open-file system calls of the Project_03 kernel (userprog/exception.cc):
// Open, Close, Read, Write and Seek over the FileSystem's file_table. The
// MIPS registers carry the arguments (r4, r5, r6) and the result (r2); every
// handler advances the PC. What the host or the console delivers enters as a
// parameter: the descriptor the host open returned, the bytes a Read
// produced, the count a host Write reported, the length of a file. Messages
// printed on the console are not modelled.
module Project3Files {
  import opened Wrappers
  import opened UserMachine
  import opened FileSystemStub

  const MaxFileLength := 32

  type Table = t: seq<Option<OpenFile>> | |t| == MAX_FILE witness seq(MAX_FILE, _ => None)

  /** The slot id names a file: 0 <= id < MAX_FILE and the slot is not NULL. */
  predicate Live(table: Table, id: int)
  {
    0 <= id < MAX_FILE && table[id].Some?
  }

  /** The kernel buffer after a read put data at its front. */
  function Filled(buf: seq<CByte>, data: seq<CByte>): (r: seq<CByte>)
    requires |data| <= |buf|
    ensures |r| == |buf| && r[..|data|] == data && r[|data|..] == buf[|data|..]
  {
    data + buf[|data|..]
  }

  // ---------------------------------------------------------------------
  // CreateFile
  // ---------------------------------------------------------------------

  /**
   * Handle_SC_CreateFile. The name is the user string at r4, copied with a
   * limit of 33 bytes; allocOk says whether the kernel buffer could be
   * allocated, hostFd is what the host open for writing returned. r2 gets 0
   * when the file was created and -1 otherwise; unlike the base kernel's
   * handler, both failures still advance the PC. The name handed to Create
   * is returned (None when the allocation failed).
   */
  method HandleCreateFile(m: Machine, allocOk: bool, hostFd: int) returns (requested: Option<seq<CByte>>)
    requires m.Valid() && Readable(m.mem, m.registers[4], MaxFileLength + 1)
    modifies m`registers
    ensures m.Valid()
    ensures requested.None? <==> !allocOk
    ensures requested.Some? ==>
      requested.value == KernelString(old(m.mem), old(m.registers[4]), MaxFileLength + 1)
    ensures m.registers ==
      PCAdvanced(old(m.registers)[2 := if allocOk && CreateResult(hostFd) then 0 else -1])
  {
    var virtualAddr := m.ReadRegister(4);
    var filename := m.User2System(virtualAddr, MaxFileLength + 1);
    var result := 0;
    if !allocOk {
      result := -1;
      requested := None;
    } else {
      requested := Some(CStr(filename));
      if !CreateResult(hostFd) {
        result := -1;
      } else {
        result := 0;
      }
    }
    m.WriteRegister(2, result);
    m.IncreasePC();
  }

  // ---------------------------------------------------------------------
  // Open
  // ---------------------------------------------------------------------

  /**
   * What Open returns in r2: -1 with no free slot; for READ_WRITE and
   * READ_ONLY the free slot, or -1 when the host open fails; 0 for STDIN
   * and 1 for any other type.
   */
  function OpenResult(table: Table, fileType: int, hostFd: int): (r: int)
    ensures r == -1 || r == 0 || r == 1 || (2 <= r < MAX_FILE && table[r].None?)
    ensures (fileType == READ_WRITE || fileType == READ_ONLY) && r != -1 ==>
              2 <= r && forall i :: 2 <= i < r ==> table[i].Some?
    ensures r == -1 ==> AllocatedSlot(table) == -1 || fileType == READ_WRITE || fileType == READ_ONLY
  {
    var slot := AllocatedSlot(table);
    if slot == -1 then -1
    else if fileType == READ_WRITE || fileType == READ_ONLY then
      if OpenTyped(hostFd, fileType).Some? then slot else -1
    else if fileType == STDIN then 0
    else 1
  }

  /** The table after Open: only a regular open with a free slot stores anything. */
  function OpenedTable(table: Table, fileType: int, hostFd: int): (r: Table)
  {
    var slot := AllocatedSlot(table);
    if slot != -1 && (fileType == READ_WRITE || fileType == READ_ONLY)
    then table[slot := OpenTyped(hostFd, fileType)]
    else table
  }

  method HandleOpen(m: Machine, fs: FileSystem, hostFd: int)
    requires m.Valid() && fs.Valid()
    requires Readable(m.mem, m.registers[4], MaxFileLength)
    modifies m`registers, fs.fileTable
    ensures m.Valid() && fs.Valid()
    ensures m.registers ==
      PCAdvanced(old(m.registers)[2 := OpenResult(old(fs.fileTable[..]), old(m.registers[5]), hostFd)])
    ensures fs.fileTable[..] == OpenedTable(old(fs.fileTable[..]), old(m.registers[5]), hostFd)
  {
    var virtAddr := m.ReadRegister(4);
    var fileType := m.ReadRegister(5);
    var result := -2;
    // the name the host open was asked for (hostFd is its answer)
    var filename := m.User2System(virtAddr, MaxFileLength);
    var allocatedSlot := fs.GetAllocatedSlot();
    if allocatedSlot != -1 {
      if fileType == READ_WRITE || fileType == READ_ONLY {
        fs.fileTable[allocatedSlot] := OpenTyped(hostFd, fileType);
        if fs.fileTable[allocatedSlot] != None {
          result := allocatedSlot;
        } else {
          result := -1;
        }
      } else if fileType == STDIN {
        result := 0;
      } else {
        result := 1;
      }
    } else {
      result := -1;
    }
    m.WriteRegister(2, result);
    m.IncreasePC();
  }

  /**
   * Open's result, case by case: a regular open that succeeds returns the
   * lowest free slot in [2, MAX_FILE), which now holds the new file at
   * position 0; every -1 leaves the table as it was; STDIN gives 0 and any
   * other non-regular type 1, storing nothing.
   */
  lemma OpenOutcome(table: Table, fileType: int, hostFd: int)
    ensures var r, t := OpenResult(table, fileType, hostFd), OpenedTable(table, fileType, hostFd);
      && (r == -1 ==> t == table)
      && (r == -1 <==>
            (AllocatedSlot(table) == -1 || ((fileType == READ_WRITE || fileType == READ_ONLY) && hostFd == -1)))
      && ((fileType == READ_WRITE || fileType == READ_ONLY) && r != -1 ==>
            && 2 <= r < MAX_FILE && table[r].None?
            && (forall i :: 2 <= i < r ==> table[i].Some?)
            && t == table[r := Some(OpenFile(hostFd, fileType, 0))])
      && (fileType != READ_WRITE && fileType != READ_ONLY ==>
            t == table && (r == -1 || r == (if fileType == STDIN then 0 else 1)))
  {
  }

  // ---------------------------------------------------------------------
  // Close
  // ---------------------------------------------------------------------

  /** 0 for a live slot (the console slots 0 and 1 included), else -1. */
  function CloseResult(table: Table, id: int): (r: int)
    ensures r == 0 <==> Live(table, id)
    ensures r == 0 || r == -1
  {
    if 0 <= id < MAX_FILE && table[id] != None then 0 else -1
  }

  /** The table after Close: the live slot id emptied, nothing else. */
  function ClosedTable(table: Table, id: int): (r: Table)
    ensures Live(table, id) ==> r == table[id := None]
    ensures !Live(table, id) ==> r == table
  {
    if 0 <= id < MAX_FILE && table[id] != None then table[id := None] else table
  }

  method HandleClose(m: Machine, fs: FileSystem)
    requires m.Valid() && fs.Valid()
    modifies m`registers, fs.fileTable
    ensures m.Valid() && fs.Valid()
    ensures m.registers == PCAdvanced(old(m.registers)[2 := CloseResult(old(fs.fileTable[..]), old(m.registers[4]))])
    ensures fs.fileTable[..] == ClosedTable(old(fs.fileTable[..]), old(m.registers[4]))
  {
    var id := m.ReadRegister(4);
    var result := -2;
    if id >= 0 && id < MAX_FILE && fs.fileTable[id] != None {
      fs.fileTable[id] := None;
      result := 0;
    } else {
      result := -1;
    }
    m.WriteRegister(2, result);
    m.IncreasePC();
  }

  /**
   * Closing the slot a regular Open returned succeeds and gives back the
   * table Open started from; closing it again fails.
   */
  lemma {:induction false} CloseUndoesOpen(table: Table, fileType: int, hostFd: int)
    requires fileType == READ_WRITE || fileType == READ_ONLY
    requires OpenResult(table, fileType, hostFd) != -1
    ensures var r, t := OpenResult(table, fileType, hostFd), OpenedTable(table, fileType, hostFd);
      && CloseResult(t, r) == 0
      && ClosedTable(t, r) == table
      && CloseResult(ClosedTable(t, r), r) == -1
  {
    var r := OpenResult(table, fileType, hostFd);
    assert table[r].None?;
    assert OpenedTable(table, fileType, hostFd)[r := None] == table;
  }

  // ---------------------------------------------------------------------
  // Read
  // ---------------------------------------------------------------------

  /** Read gets past its checks: a live slot that is not console output. */
  predicate ReadAccepted(table: Table, id: int)
  {
    Live(table, id) && table[id].value.fileType != STDOUT
  }

  /**
   * What Read returns in r2: -1 when the checks fail; the console byte
   * count for STDIN; the number of bytes a file read delivered, or -2 when
   * it delivered none.
   */
  function ReadResult(table: Table, id: int, consoleIn: seq<CByte>, fileData: seq<CByte>): (r: int)
    ensures r >= -2
    ensures r == -1 <==> !ReadAccepted(table, id)
    ensures r == -2 ==> fileData == [] && table[id].value.fileType != STDIN
  {
    if !ReadAccepted(table, id) then -1
    else if table[id].value.fileType == STDIN then |consoleIn|
    else if |fileData| > 0 then |fileData|
    else -2
  }

  /** The table after Read: a file read moves that file's position on. */
  function ReadTable(table: Table, id: int, fileData: seq<CByte>): (r: Table)
  {
    if ReadAccepted(table, id) && table[id].value.fileType != STDIN then
      var f := table[id].value;
      table[id := Some(f.(pos := f.pos + |fileData|))]
    else table
  }

  /** User memory after Read: the delivered bytes copied back to virtAddr. */
  function ReadMemory(mem: map<int, CByte>, table: Table, virtAddr: int, charcount: int, id: int,
                      consoleIn: seq<CByte>, fileData: seq<CByte>): map<int, CByte>
    requires ReadAccepted(table, id) ==>
      charcount >= 0 && Readable(mem, virtAddr, charcount)
      && |consoleIn| <= charcount && |fileData| <= charcount
  {
    if !ReadAccepted(table, id) then mem
    else
      var buf := KernelBuffer(mem, virtAddr, charcount);
      if table[id].value.fileType == STDIN then
        CopiedOut(mem, virtAddr, |consoleIn|, Filled(buf, consoleIn))
      else if |fileData| > 0 then
        CopiedOut(mem, virtAddr, |fileData|, Filled(buf, fileData))
      else mem
  }

  /**
   * consoleIn is what the console Read delivered, fileData what the
   * OpenFile Read delivered; each is at most charcount bytes. A negative
   * charcount on a path that reaches User2System is not modelled.
   */
  method HandleRead(m: Machine, fs: FileSystem, consoleIn: seq<CByte>, fileData: seq<CByte>)
    requires m.Valid() && fs.Valid()
    requires ReadAccepted(fs.fileTable[..], m.registers[6]) ==>
      m.registers[5] >= 0 && Readable(m.mem, m.registers[4], m.registers[5])
      && |consoleIn| <= m.registers[5] && |fileData| <= m.registers[5]
    modifies m, fs.fileTable
    ensures m.Valid() && fs.Valid()
    ensures var t, regs := old(fs.fileTable[..]), old(m.registers);
      && m.registers == PCAdvanced(regs[2 := ReadResult(t, regs[6], consoleIn, fileData)])
      && fs.fileTable[..] == ReadTable(t, regs[6], fileData)
      && m.mem == ReadMemory(old(m.mem), t, regs[4], regs[5], regs[6], consoleIn, fileData)
  {
    var virtAddr := m.ReadRegister(4);
    var charcount := m.ReadRegister(5);
    var id := m.ReadRegister(6);
    var result := -3;
    if id < 0 || id >= MAX_FILE {
      result := -1;
    } else if fs.fileTable[id] == None {
      result := -1;
    } else if fs.fileTable[id].value.fileType == STDOUT {
      result := -1;
    } else {
      var oldPos := fs.fileTable[id].value.pos;
      var buf := m.User2System(virtAddr, charcount);
      if fs.fileTable[id].value.fileType == STDIN {
        var size := |consoleIn|;
        buf := Filled(buf, consoleIn);
        var _ := m.System2User(virtAddr, size, buf);
        result := size;
      } else {
        // OpenFile::Read fills the buffer and moves the position on
        var f := fs.fileTable[id].value;
        buf := Filled(buf, fileData);
        fs.fileTable[id] := Some(f.(pos := f.pos + |fileData|));
        if |fileData| > 0 {
          var newPos := fs.fileTable[id].value.pos;
          var _ := m.System2User(virtAddr, newPos - oldPos, buf);
          result := newPos - oldPos;
        } else {
          result := -2;
        }
      }
    }
    m.WriteRegister(2, result);
    m.IncreasePC();
  }

  /**
   * Read's codes: -1 exactly when the checks fail, and then nothing
   * changes; a file read returns the position advance, -2 when it reached
   * the end; STDIN reports the console count and keeps the table.
   */
  lemma ReadOutcome(table: Table, id: int, consoleIn: seq<CByte>, fileData: seq<CByte>)
    ensures var r, t := ReadResult(table, id, consoleIn, fileData), ReadTable(table, id, fileData);
      && (r == -1 <==> !ReadAccepted(table, id))
      && (r == -1 ==> t == table)
      && (ReadAccepted(table, id) && table[id].value.fileType == STDIN ==> r == |consoleIn| && t == table)
      && (ReadAccepted(table, id) && table[id].value.fileType != STDIN ==>
            && t[id].Some? && t[id].value.fd == table[id].value.fd
            && t[id].value.fileType == table[id].value.fileType
            && (r == -2 <==> t[id].value.pos == table[id].value.pos)
            && (r != -2 ==> r == t[id].value.pos - table[id].value.pos > 0)
            && (forall j :: 0 <= j < MAX_FILE && j != id ==> t[j] == table[j]))
  {
  }

  /**
   * After a successful file read the user buffer starts with the bytes up
   * to and including the first NUL of the data (all of it when it has no
   * NUL), and memory outside them is untouched.
   */
  lemma {:induction false} ReadCopiesData(mem: map<int, CByte>, virtAddr: int, charcount: int,
                                          data: seq<CByte>, a: int)
    requires 0 < |data| <= charcount && Readable(mem, virtAddr, charcount)
    ensures var k := CopyOutCount(Filled(KernelBuffer(mem, virtAddr, charcount), data), |data|);
      var mem' := CopiedOut(mem, virtAddr, |data|, Filled(KernelBuffer(mem, virtAddr, charcount), data));
      && 1 <= k <= |data|
      && (virtAddr <= a < virtAddr + k ==> a in mem' && mem'[a] == data[a - virtAddr])
      && (!(virtAddr <= a < virtAddr + k) && a in mem ==> a in mem' && mem'[a] == mem[a])
  {
    var buf := Filled(KernelBuffer(mem, virtAddr, charcount), data);
    var k := CopyOutCount(buf, |data|);
    StoredAt(mem, virtAddr, buf[..k], a);
  }

  // ---------------------------------------------------------------------
  // Write
  // ---------------------------------------------------------------------

  /**
   * Write's descriptor check as written, `id < 0 || id > MAX_FILE`: it lets
   * id == MAX_FILE through to file_table[MAX_FILE], one past the table.
   */
  function WriteIdRejectedAsWritten(id: int): (r: bool)
    ensures r ==> WriteIdRejected(id)
  {
    id < 0 || id > MAX_FILE
  }

  /** The id MAX_FILE passes the written check but is no slot of the table. */
  lemma WriteGuardAdmitsOnePastEnd()
    ensures !WriteIdRejectedAsWritten(MAX_FILE)
    ensures !(0 <= MAX_FILE < MAX_FILE)
  {
  }

  /** The intended check, as Read and Close have it: `id < 0 || id >= MAX_FILE`. */
  predicate WriteIdRejected(id: int)
  {
    id < 0 || id >= MAX_FILE
  }

  /** The corrected check lets through exactly the slot numbers of the table. */
  lemma WriteIdCheck(id: int)
    ensures !WriteIdRejected(id) <==> 0 <= id < MAX_FILE
    ensures WriteIdRejectedAsWritten(id) ==> WriteIdRejected(id)
    ensures WriteIdRejected(id) && !WriteIdRejectedAsWritten(id) <==> id == MAX_FILE
  {
  }

  /** Write gets past its checks: a live slot that is neither READ_ONLY nor STDIN. */
  predicate WriteAccepted(table: Table, id: int)
  {
    !WriteIdRejected(id) && table[id].Some?
    && table[id].value.fileType != READ_ONLY && table[id].value.fileType != STDIN
  }

  /** The index of the first NUL or newline of buf, or |buf| when there is none. */
  function LineEnd(buf: seq<CByte>): (i: nat)
    ensures i <= |buf|
    ensures i < |buf| ==> buf[i] == NUL || buf[i] == '\n'
    ensures forall k :: 0 <= k < i ==> buf[k] != NUL && buf[k] != '\n'
  {
    if buf == [] || buf[0] == NUL || buf[0] == '\n' then 0 else 1 + LineEnd(buf[1..])
  }

  /** To STDOUT, Write echoes the line of the buffer and then a newline. */
  function Echoed(buf: seq<CByte>): (out: seq<CByte>)
    requires LineEnd(buf) < |buf|
    ensures |out| >= 1 && out[|out| - 1] == '\n'
    ensures forall k :: 0 <= k < |out| - 1 ==> out[k] != NUL && out[k] != '\n'
  {
    buf[..LineEnd(buf)] + ['\n']
  }

  /**
   * The count the STDOUT branch returns as written, `i - 1` for i bytes of
   * the line echoed: one less than the bytes of the string, and -1 (the
   * error code) for an empty string.
   */
  function StdoutCountAsWritten(buf: seq<CByte>): (n: int)
    ensures n >= -1
    ensures n == -1 <==> LineEnd(buf) == 0
    ensures LineEnd(buf) < |buf| ==> n == |Echoed(buf)| - 2
  {
    LineEnd(buf) - 1
  }

  /** Echoing "" reports -1, as a failed Write does; echoing "hi" reports 1. */
  lemma StdoutCountAsWrittenMiscounts()
    ensures StdoutCountAsWritten([NUL]) == -1
    ensures var hi: seq<CByte> := ['h', 'i', NUL];
      StdoutCountAsWritten(hi) == 1 && |Echoed(hi)| == 3
  {
    var hi: seq<CByte> := ['h', 'i', NUL];
    assert LineEnd(hi[2..]) == 0;
    assert LineEnd(hi[1..]) == 1;
  }

  /** The intended STDOUT count: the bytes of the user's line that were written. */
  function StdoutCount(buf: seq<CByte>): (n: int)
    requires LineEnd(buf) < |buf|
    ensures n >= 0 && n == |Echoed(buf)| - 1
  {
    LineEnd(buf)
  }

  /**
   * What Write returns in r2: -1 when the checks fail; for READ_WRITE the
   * count the host write reported when positive, else -3; for STDOUT the
   * length of the echoed line; -3 for any other type.
   */
  function WriteResult(table: Table, id: int, buf: seq<CByte>, hostWritten: int): (r: int)
    requires WriteAccepted(table, id) && table[id].value.fileType == STDOUT ==> LineEnd(buf) < |buf|
    ensures r >= -3
    ensures r == -1 <==> !WriteAccepted(table, id)
    ensures r >= 0 ==> table[id].value.fileType == READ_WRITE || table[id].value.fileType == STDOUT
  {
    if !WriteAccepted(table, id) then -1
    else if table[id].value.fileType == READ_WRITE then
      if hostWritten > 0 then hostWritten else -3
    else if table[id].value.fileType == STDOUT then StdoutCount(buf)
    else -3
  }

  /** The table after Write: a host write moves that file's position on. */
  function WriteTable(table: Table, id: int, hostWritten: int): (r: Table)
  {
    if WriteAccepted(table, id) && table[id].value.fileType == READ_WRITE && hostWritten > 0 then
      var f := table[id].value;
      table[id := Some(f.(pos := f.pos + hostWritten))]
    else table
  }

  /** The STDOUT echo loop: the line of buf, one byte at a time, then '\n'. */
  method EchoLine(buf: seq<CByte>) returns (i: nat, echoed: seq<CByte>)
    requires LineEnd(buf) < |buf|
    ensures i == LineEnd(buf) && echoed == Echoed(buf)
  {
    var b := buf;
    i := 0;
    echoed := [];
    while b[i] != NUL && b[i] != '\n'
      invariant 0 <= i <= LineEnd(buf)
      invariant b == buf && echoed == buf[..i]
      decreases LineEnd(buf) - i
    {
      echoed := echoed + [b[i]];
      i := i + 1;
    }
    b := b[i := '\n'];
    echoed := echoed + [b[i]];
  }

  /**
   * hostWritten is what OpenFile::Write reported; a positive count moves
   * the position on by that much. echoed is what went to the console.
   * A negative charcount on a path that reaches User2System is not
   * modelled. Uses the corrected id check and STDOUT count.
   */
  method HandleWrite(m: Machine, fs: FileSystem, hostWritten: int) returns (echoed: seq<CByte>)
    requires m.Valid() && fs.Valid()
    requires WriteAccepted(fs.fileTable[..], m.registers[6]) ==>
      m.registers[5] >= 0 && Readable(m.mem, m.registers[4], m.registers[5])
    modifies m`registers, fs.fileTable
    ensures m.Valid() && fs.Valid()
    ensures var t, regs := old(fs.fileTable[..]), old(m.registers);
      var buf := if WriteAccepted(t, regs[6]) then KernelBuffer(m.mem, regs[4], regs[5]) else [NUL];
      && m.registers == PCAdvanced(regs[2 := WriteResult(t, regs[6], buf, hostWritten)])
      && fs.fileTable[..] == WriteTable(t, regs[6], hostWritten)
      && echoed == if WriteAccepted(t, regs[6]) && t[regs[6]].value.fileType == STDOUT then Echoed(buf) else []
  {
    var virtAddr := m.ReadRegister(4);
    var charcount := m.ReadRegister(5);
    var id := m.ReadRegister(6);
    var result := -3;
    echoed := [];
    if WriteIdRejected(id) {
      result := -1;
    } else if fs.fileTable[id] == None {
      result := -1;
    } else if fs.fileTable[id].value.fileType == READ_ONLY || fs.fileTable[id].value.fileType == STDIN {
      result := -1;
    } else {
      var oldPos := fs.fileTable[id].value.pos;
      var buf := m.User2System(virtAddr, charcount);
      if fs.fileTable[id].value.fileType == READ_WRITE {
        if hostWritten > 0 {
          var f := fs.fileTable[id].value;
          fs.fileTable[id] := Some(f.(pos := f.pos + hostWritten));
          var newPos := fs.fileTable[id].value.pos;
          result := newPos - oldPos;
        }
      } else if fs.fileTable[id].value.fileType == STDOUT {
        var i;
        i, echoed := EchoLine(buf);
        result := i;
      }
    }
    m.WriteRegister(2, result);
    m.IncreasePC();
  }

  /**
   * Write's codes: -1 exactly when the checks fail, leaving the table; a
   * host write's count is the position advance; STDOUT reports one less
   * than the bytes that reached the console (the line without its '\n').
   */
  lemma WriteOutcome(table: Table, id: int, buf: seq<CByte>, hostWritten: int)
    requires WriteAccepted(table, id) && table[id].value.fileType == STDOUT ==> LineEnd(buf) < |buf|
    ensures var r, t := WriteResult(table, id, buf, hostWritten), WriteTable(table, id, hostWritten);
      && (r == -1 <==> !WriteAccepted(table, id))
      && (r == -1 ==> t == table)
      && (t != table ==> r == t[id].value.pos - table[id].value.pos > 0)
      && (WriteAccepted(table, id) && table[id].value.fileType == STDOUT ==>
            t == table && r == |Echoed(buf)| - 1)
  {
  }

  // ---------------------------------------------------------------------
  // Seek
  // ---------------------------------------------------------------------

  /** The position Seek aims at: the file's length for -1, else pos. */
  function SeekTarget(pos: int, length: int): int
  {
    if pos == -1 then length else pos
  }

  /**
   * Seek as written. Its checks print a message but do not stop it, so it
   * always goes on to ask file_table[id] for its length: an id out of range
   * or a NULL slot is undefined behaviour (hence the precondition), and a
   * console file is sought like any other.
   */
  function SeekAsWritten(table: Table, id: int, pos: int, length: int): (r: (int, Table))
    requires Live(table, id)
    ensures r.0 == -1 ==> r.1 == table
    ensures r.0 != -1 ==> 0 <= r.0 <= length && r.1[id] == Some(table[id].value.(pos := r.0))
    ensures forall j :: 0 <= j < MAX_FILE && j != id ==> r.1[j] == table[j]
  {
    var p := SeekTarget(pos, length);
    if p > length || p < 0 then (-1, table)
    else (p, table[id := Some(table[id].value.(pos := p))])
  }

  /** Seek(0) on the console input slot moves it and reports success. */
  lemma SeekAsWrittenMovesConsole(table: Table, length: int)
    requires table[0].Some? && table[0].value.fileType == STDIN && length >= 0
    ensures SeekAsWritten(table, 0, 0, length).0 == 0
    ensures SeekAsWritten(table, 0, 0, length).1[0].value.pos == 0
  {
  }

  /** The intended checks: a live slot that is not the console. */
  predicate SeekAccepted(table: Table, id: int)
  {
    Live(table, id) && table[id].value.fileType != STDIN && table[id].value.fileType != STDOUT
  }

  /** What the corrected Seek returns: -1 on a failed check or a position outside [0, length]. */
  function SeekResult(table: Table, id: int, pos: int, length: int): (r: int)
    ensures r == -1 || (SeekAccepted(table, id) && 0 <= r <= length)
    ensures !SeekAccepted(table, id) ==> r == -1
  {
    if !SeekAccepted(table, id) then -1
    else
      var p := SeekTarget(pos, length);
      if p > length || p < 0 then -1 else p
  }

  function SeekedTable(table: Table, id: int, pos: int, length: int): (r: Table)
  {
    if SeekResult(table, id, pos, length) == -1 then table
    else table[id := Some(table[id].value.(pos := SeekResult(table, id, pos, length)))]
  }

  /**
   * Seek with the checks returning -1 as their messages say. length is what
   * OpenFile::Length reports for the file.
   */
  method HandleSeek(m: Machine, fs: FileSystem, length: int)
    requires m.Valid() && fs.Valid()
    modifies m`registers, fs.fileTable
    ensures m.Valid() && fs.Valid()
    ensures var t, regs := old(fs.fileTable[..]), old(m.registers);
      && m.registers == PCAdvanced(regs[2 := SeekResult(t, regs[5], regs[4], length)])
      && fs.fileTable[..] == SeekedTable(t, regs[5], regs[4], length)
  {
    var pos := m.ReadRegister(4);
    var id := m.ReadRegister(5);
    var result := -1;
    if id < 0 || id >= MAX_FILE {
      result := -1;
    } else if fs.fileTable[id] == None {
      result := -1;
    } else if fs.fileTable[id].value.fileType == STDIN || fs.fileTable[id].value.fileType == STDOUT {
      result := -1;
    } else {
      pos := if pos == -1 then length else pos;
      if pos > length || pos < 0 {
        result := -1;
      } else {
        fs.fileTable[id] := Some(fs.fileTable[id].value.(pos := pos));
        result := pos;
      }
    }
    m.WriteRegister(2, result);
    m.IncreasePC();
  }

  /**
   * The corrected Seek agrees with the written one on every regular file,
   * and refuses the console; a success is a position in [0, length] that
   * the file now holds, -1 from the end included.
   */
  lemma SeekOutcome(table: Table, id: int, pos: int, length: int)
    ensures var r, t := SeekResult(table, id, pos, length), SeekedTable(table, id, pos, length);
      && (SeekAccepted(table, id) ==> (r, t) == SeekAsWritten(table, id, pos, length))
      && (Live(table, id) && !SeekAccepted(table, id) ==> r == -1 && t == table)
      && (r != -1 ==> 0 <= r <= length && t[id].Some? && t[id].value.pos == r)
      && (SeekAccepted(table, id) && length >= 0 ==> SeekResult(table, id, -1, length) == length)
  {
  }
}
