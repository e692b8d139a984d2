# Nachos kernel bookkeeping and FAT32/NTFS explorers, modelled in Dafny

This project models the logic of two student code bases. One is a Nachos 3.4 teaching-kernel extension: its process and semaphore tables, its system-call handlers and two test programs. The other is a pair of Windows disk explorers, one for FAT32 volumes and one for NTFS volumes. Every file under this directory is one Dafny module, and the modules are verified together.

## What is modelled

**Process and semaphore bookkeeping.** These modules cover the original kernel's `userprog/ptable.cc`, `pcb.cc`, `stable.h` and `stable.cc`, and the Project_03 copy of `pcb.cc`.
- Modules: `ProcessTable`, `Pcb`, `Pcb3`, `SemaphoreTable`, `Bitmap`, `Threads`.
- Each Nachos semaphore is an integer counter. V adds one. P requires a positive count and subtracts one.
- Blocking calls are split at the point where they would wait. `JoinUpdate` becomes `JoinBegin` then `JoinEnd`; `ExitUpdate` becomes `ExitBegin` then `ExitEnd`.
- The current thread is passed in as its processID and its name.
- `bitmap.cc` is not part of this model. `Bitmap.BitMap` follows stock Nachos: bits are clear at construction, and `Find` marks and returns the lowest clear bit, or -1.
- Its rows cite the lines of `ptable.cc` that use it.
- `stable.h` declares `Wait`/`Signal` on `Sem`, while `stable.cc` implements `Create`/`Down`/`Up`/`Get`. The model gives `Sem` the counter operations of `stable.h` and gives `STable` the bodies of `stable.cc`. The Project_03 dispatcher's `sTab->Wait`/`Signal` calls are modelled as `STable.Down`/`Up`.

**System-call handlers.** These modules cover both `exception.cc` files and the stub `filesys.h` of Project_03.
- Modules: `UserMachine`, `Dispatch`, `BaseSyscalls`, `Project3ReadInt`, `Project3Files`, `Project3Process`, `FileSystemStub`, with `Decimal` for text and 32-bit arithmetic.
- The machine is a class with a register file and a user memory. User memory maps a virtual address to a byte. The byte copies are only modelled on user addresses that are mapped: the page fault that a bad user pointer raises is listed under "## Left out".
- Register numbers are those of stock Nachos `machine.h`: PCReg 34, NextPCReg 35, PrevPCReg 36, 40 registers. `machine.h` is not part of this model.
- `IncreasePC`, `User2System` and `System2User` are the same code in both kernels. They are modelled once, as methods of `UserMachine.Machine`, and the rows cite the Project_03 copy.
- Whatever the console, the host file system or the executable loader returns is a parameter: the bytes a console Read delivered, the descriptor a host open returned, the count a host write reported, a file's length.
- C `int` overflow is two's-complement wrap-around (`Decimal.Wrap32`).
- The open-file table `file_table` is a field of `FileSystemStub.FileSystem` holding the `MAX_FILE` slots.

**FAT32 explorer.** This module covers `HDH_PROJECT1/Volume.cpp`, with constants from `Volume.h`.
- Module: `Fat32`, with `Bytes` for little-endian reading.
- It decodes the boot sector, does the cluster and sector arithmetic, and walks the FAT chain.
- It checks the 32-byte directory records, assembles 8.3 names, builds the attribute column of `Dir`, and keeps the `cd` path stack.
- Offsets, the end-of-chain mark and the record tests follow Microsoft's FAT32 File System Specification, version 1.03, sections "Boot Sector and BPB", "FAT Data Structure" and "FAT Directory Structure".
- Device reads are parameters: the boot sector, the FAT bytes, and the records read for a start cluster.

**NTFS explorer.** These modules cover `NTFS/Utility.cpp`, `Entry.cpp`, `Entry.h` and `Volume.cpp`.
- Modules: `NtfsUtility`, `NtfsEntry`, `NtfsTree`, `NtfsVolume`.
- They extract little-endian fields and name the attribute types and the `$STANDARD_INFORMATION` flags.
- They read attribute headers and walk the attribute list up to the `0xFFFFFFFF` terminator. They decode `$STANDARD_INFORMATION`, `$FILE_NAME` and `$DATA`.
- They scan the MFT records, build the parent-reference tree rooted at MFT entry 5, and move the current directory down to a child and back up to its parent.
- The tree is a `Node` datatype whose nodes refer to entries by index. The current directory is a path of child positions from the root; this replaces the source's parent pointers.
- Sector reads are a parameter.

**Console utilities and test programs.**
- `Console` covers `HDH_PROJECT1/Console.cpp`. It models the string utilities, the key mapping of `ReadToken`, the editing fold of `ReadString`, and the retry loop of `ReadInt(lower, upper)` with `ReadOptions`.
  - Keys come from a sequence that stands in for `_getch`.
  - Each retry reads one line from a sequence of lines.
- `QuickSort` covers `test/quicksort.c` in the base tree (MAX_SIZE 100) and in Project_02 (MAX_SIZE 10).
  - The sort runs in place on an `array` with the explicit index stack.
  - It is proved sorted and a permutation of its input, with the stack in bounds.
- `Scan` covers `test/scan.c`: the decimal accumulation of each record and the least-loaded choice among three scanners. The contents of `scan.txt` are a parameter.

**Bounds added for termination.** Several loops in the source terminate only on well-formed input. The model gives each of them an explicit bound:
- the FAT chain walk and the NTFS attribute walk take a step budget (`maxSteps`, `maxAttributes`);
- the NTFS tree construction takes a recursion `depth`.

Lemmas show what happens at the bound. A chain that loops on itself never reaches the end-of-chain mark (`Fat32.SelfLoopNeverEnds`). An attribute of size 0 never reaches the terminator (`NtfsEntry.ZeroSizeNeverTerminates`).

**Where the model departs from the code.** Three defects of the Project_03 Write and Seek handlers are recorded under "## Findings". For these, `Project3Files.HandleWrite` and `Project3Files.HandleSeek` model the intended behaviour. The behaviour as written is exhibited by `Project3Files.WriteGuardAdmitsOnePastEnd`, `Project3Files.StdoutCountAsWrittenMiscounts` and `Project3Files.SeekAsWrittenMovesConsole`. Everywhere else the model keeps the code's behaviour where it departs from what its messages or comments promise:
- In the base `quicksort.c`, the prompt asks for 1 <= n, but the loop accepts n = 0 (`QuickSort.SortTest`).
- The Project_02 copy's message says 100 while MAX_SIZE is 10; the model uses 10.
- `scan.c` accumulates every character before `*` as a digit, with no digit test. `Scan.Accumulated` keeps that behaviour, reading each byte as a signed `char` (`Scan.SignedChar`).

## Model

| member | source | states |
|---|---|---|
| Bitmap.FirstClear | nachos/nachos-3.4/code/userprog/ptable.cc:119-127 | the lowest clear slot index, with every lower slot set; -1 exactly when every bit is set |
| Bitmap.BitMap.constructor | nachos/nachos-3.4/code/userprog/ptable.cc:18 | a fresh bitmap of the given size with every bit clear |
| Bitmap.BitMap.Mark | nachos/nachos-3.4/code/userprog/ptable.cc:27 | sets bit `which` and changes no other bit |
| Bitmap.BitMap.Clear | nachos/nachos-3.4/code/userprog/ptable.cc:74 | clears bit `which` and changes no other bit |
| Bitmap.BitMap.Test | nachos/nachos-3.4/code/userprog/ptable.cc:67 | returns bit `which` |
| Bitmap.BitMap.Find | nachos/nachos-3.4/code/userprog/ptable.cc:59 | returns the lowest clear bit and marks it; returns -1 with no change when every bit is set |
| ProcessTable.ExitPhaseResult | nachos/nachos-3.4/code/userprog/ptable.cc:184-196 | ExitUpdate returns 0 exactly when process 0 halts the machine and -1 exactly when the caller's slot is unmarked |
| ProcessTable.NewProcess | nachos/nachos-3.4/code/userprog/ptable.cc:129-133 | the PCB stored for a new process has the given filename, the caller as parent, and a thread with the program's name and the slot's id exactly when Exec created one |
| ProcessTable.PTable.constructor | nachos/nachos-3.4/code/userprog/ptable.cc:11-32 | only bit 0 is set; pcb[0] is a fresh PCB named "./test/scheduler" with parentID -1; every other slot is null; the table invariant holds |
| ProcessTable.PTable.GetFreeSlot | nachos/nachos-3.4/code/userprog/ptable.cc:57-60 | returns and marks the lowest clear slot, or returns -1 and leaves the bitmap unchanged |
| ProcessTable.PTable.IsExist | nachos/nachos-3.4/code/userprog/ptable.cc:65-68 | true exactly when the slot's bit is set, which is exactly when the slot holds a PCB |
| ProcessTable.PTable.Remove | nachos/nachos-3.4/code/userprog/ptable.cc:72-80 | clears the slot's bit and nulls the slot, changing no other bit or slot, and keeps the table invariant |
| ProcessTable.PTable.GetFileName | nachos/nachos-3.4/code/userprog/ptable.cc:85-88 | returns the filename stored in the slot's PCB |
| ProcessTable.PTable.ExecUpdate | nachos/nachos-3.4/code/userprog/ptable.cc:97-137 | a NULL name, the scheduler's name, the caller's own name or a full table give -1 with bitmap and slots unchanged; otherwise returns the lowest previously clear slot, marks it, stores a fresh PCB there with the name and the caller as parent, and changes no other slot; bmsem ends where it started on every path |
| ProcessTable.PTable.JoinBegin | nachos/nachos-3.4/code/userprog/ptable.cc:142-159 | succeeds exactly for an id in [0, psize) holding a PCB whose parent is the caller; on success the caller's numwait grows by 1 and on failure nothing changes; no other field of the caller changes |
| ProcessTable.PTable.JoinEnd | nachos/nachos-3.4/code/userprog/ptable.cc:161-172 | with the child's joinsem positive: takes one from joinsem, adds one to exitsem, and returns the exit code the child stored |
| ProcessTable.PTable.ExitBegin | nachos/nachos-3.4/code/userprog/ptable.cc:178-203 | Halted exactly for process 0 and Rejected exactly for an unmarked caller, both changing nothing; otherwise stores the exit code, adds one to the process's joinsem and lowers the parent's numwait unless it is zero; the parent's mutex, exitcode and joinsem and the process's exitsem stay as they were |
| ProcessTable.PTable.ExitEnd | nachos/nachos-3.4/code/userprog/ptable.cc:205-211 | with exitsem positive: returns the stored exit code, clears the bit and nulls the slot, changing no other slot |
| Pcb.PCB.constructor | nachos/nachos-3.4/code/userprog/pcb.cc:7-24 | joinsem and exitsem 0, mutex 1, pid the given id, exit code and numwait 0, parentID the caller's processID for a nonzero id and 0 otherwise, no thread, JoinStatus -1 |
| Pcb.PCB.GetID | nachos/nachos-3.4/code/userprog/pcb.cc:41-44 | returns pid |
| Pcb.PCB.GetNumWait | nachos/nachos-3.4/code/userprog/pcb.cc:46-49 | returns numwait |
| Pcb.PCB.GetExitCode | nachos/nachos-3.4/code/userprog/pcb.cc:51-54 | returns the stored exit code, so the code last passed to SetExitCode |
| Pcb.PCB.GetFileName | nachos/nachos-3.4/code/userprog/pcb.cc:56-59 | returns the stored filename, so the name last passed to SetFileName |
| Pcb.PCB.GetNameThread | nachos/nachos-3.4/code/userprog/pcb.cc:106-109 | returns the thread's name; needs a thread, as the C++ dereferences it |
| Pcb.PCB.SetExitCode | nachos/nachos-3.4/code/userprog/pcb.cc:61-64 | the exit code becomes ec; no other field changes |
| Pcb.PCB.SetFileName | nachos/nachos-3.4/code/userprog/pcb.cc:66-69 | the filename becomes the name, which must fit the 32-byte buffer with its NUL; no other field changes |
| Pcb.PCB.IncNumWait | nachos/nachos-3.4/code/userprog/pcb.cc:71-76 | numwait grows by exactly 1 and mutex ends at its prior count |
| Pcb.PCB.DecNumWait | nachos/nachos-3.4/code/userprog/pcb.cc:78-84 | numwait drops by 1 when nonzero and is unchanged at 0, so it never goes negative; mutex ends at its prior count |
| Pcb.PCB.JoinWait | nachos/nachos-3.4/code/userprog/pcb.cc:86-89 | needs a positive joinsem and takes 1 from it |
| Pcb.PCB.JoinRelease | nachos/nachos-3.4/code/userprog/pcb.cc:91-94 | adds 1 to joinsem |
| Pcb.PCB.ExitWait | nachos/nachos-3.4/code/userprog/pcb.cc:96-99 | needs a positive exitsem and takes 1 from it |
| Pcb.PCB.ExitRelease | nachos/nachos-3.4/code/userprog/pcb.cc:101-104 | adds 1 to exitsem |
| Pcb3.PCB.constructor | Project_03/22127022_22127154_22127210_22127413/Source/nachos/nachos-3.4/code/userprog/pcb.cc:15-30 | joinsem and exitsem 0, mutex 1, exit code and numwait 0, no thread, parentID the caller's processID for a nonzero id and 0 otherwise |
| Pcb3.PCB.GetID | Project_03/22127022_22127154_22127210_22127413/Source/nachos/nachos-3.4/code/userprog/pcb.cc:52-55 | returns the thread's processID; defined only once Exec has created the thread |
| Pcb3.PCB.GetNumWait | Project_03/22127022_22127154_22127210_22127413/Source/nachos/nachos-3.4/code/userprog/pcb.cc:57-60 | returns numwait |
| Pcb3.PCB.GetExitCode | Project_03/22127022_22127154_22127210_22127413/Source/nachos/nachos-3.4/code/userprog/pcb.cc:62-65 | returns the stored exit code, so the code last passed to SetExitCode |
| Pcb3.PCB.GetFileName | Project_03/22127022_22127154_22127210_22127413/Source/nachos/nachos-3.4/code/userprog/pcb.cc:67-70 | returns the stored filename, so the name last passed to SetFileName |
| Pcb3.PCB.GetNameThread | Project_03/22127022_22127154_22127210_22127413/Source/nachos/nachos-3.4/code/userprog/pcb.cc:72-75 | returns the thread's name; needs a thread, as the C++ dereferences it |
| Pcb3.PCB.SetExitCode | Project_03/22127022_22127154_22127210_22127413/Source/nachos/nachos-3.4/code/userprog/pcb.cc:81-84 | the exit code becomes ec; no other field changes |
| Pcb3.PCB.SetFileName | Project_03/22127022_22127154_22127210_22127413/Source/nachos/nachos-3.4/code/userprog/pcb.cc:86-89 | the filename becomes the name, which must fit the 32-byte buffer with its NUL; no other field changes |
| Pcb3.PCB.IncNumWait | Project_03/22127022_22127154_22127210_22127413/Source/nachos/nachos-3.4/code/userprog/pcb.cc:95-100 | numwait grows by exactly 1 and mutex ends at its prior count |
| Pcb3.PCB.DecNumWait | Project_03/22127022_22127154_22127210_22127413/Source/nachos/nachos-3.4/code/userprog/pcb.cc:102-108 | numwait drops by 1 when positive and is unchanged otherwise; mutex ends at its prior count |
| Pcb3.PCB.JoinWait | Project_03/22127022_22127154_22127210_22127413/Source/nachos/nachos-3.4/code/userprog/pcb.cc:110-113 | needs a positive joinsem and takes 1 from it |
| Pcb3.PCB.JoinRelease | Project_03/22127022_22127154_22127210_22127413/Source/nachos/nachos-3.4/code/userprog/pcb.cc:115-118 | adds 1 to joinsem |
| Pcb3.PCB.ExitWait | Project_03/22127022_22127154_22127210_22127413/Source/nachos/nachos-3.4/code/userprog/pcb.cc:120-123 | needs a positive exitsem and takes 1 from it |
| Pcb3.PCB.ExitRelease | Project_03/22127022_22127154_22127210_22127413/Source/nachos/nachos-3.4/code/userprog/pcb.cc:125-128 | adds 1 to exitsem |
| Pcb3.PCB.Exec | Project_03/22127022_22127154_22127210_22127413/Source/nachos/nachos-3.4/code/userprog/pcb.cc:130-151 | when no thread is created: returns -1 with parentID unchanged; otherwise the thread carries the name and processID pID, parentID becomes the caller's id, and pID is returned; mutex ends at its prior count on both paths |
| SemaphoreTable.FirstNamed | nachos/nachos-3.4/code/userprog/stable.cc:95-105 | the lowest slot holding the name, with no lower slot holding it; -1 exactly when no slot holds it |
| SemaphoreTable.Adjusted | nachos/nachos-3.4/code/userprog/stable.cc:72-87 | the counters with delta added to the first semaphore of that name and no other; unchanged when no semaphore has the name |
| SemaphoreTable.Sem.constructor | nachos/nachos-3.4/code/userprog/stable.h:17-21 | the name, which must fit the 50-byte buffer with its NUL, and a counter starting at initValue |
| SemaphoreTable.Sem.Wait | nachos/nachos-3.4/code/userprog/stable.h:29-32 | needs a positive count and takes 1 from it |
| SemaphoreTable.Sem.Signal | nachos/nachos-3.4/code/userprog/stable.h:34-37 | adds 1 to the count |
| SemaphoreTable.Sem.GetName | nachos/nachos-3.4/code/userprog/stable.h:39-42 | returns the stored name |
| SemaphoreTable.STable.constructor | nachos/nachos-3.4/code/userprog/stable.cc:4-11 | all MAX_SEMAPHORE = 10 slots empty and unmarked |
| SemaphoreTable.STable.FindFreeSlot | nachos/nachos-3.4/code/userprog/stable.cc:110-113 | returns and marks the lowest free slot, or returns -1 with nothing changed |
| SemaphoreTable.STable.Get | nachos/nachos-3.4/code/userprog/stable.cc:93-106 | the semaphore of the lowest marked slot whose name matches, or null; empty slots are never consulted |
| SemaphoreTable.STable.Create | nachos/nachos-3.4/code/userprog/stable.cc:35-60 | -1 with bitmap and slots unchanged when a marked slot has the name or no slot is free; otherwise 0, the lowest free slot marked and holding a fresh semaphore with that name and initial count, no other slot changed |
| SemaphoreTable.STable.Down | nachos/nachos-3.4/code/userprog/stable.cc:65-74 | -1 exactly for an unknown name; otherwise takes 1 from the first matching counter, which must be positive, and returns 0; no name and no other counter changes |
| SemaphoreTable.STable.Up | nachos/nachos-3.4/code/userprog/stable.cc:79-88 | -1 exactly for an unknown name; otherwise adds 1 to the first matching counter and returns 0; no name and no other counter changes |
| UserMachine.PCAdvanced | Project_03/22127022_22127154_22127210_22127413/Source/nachos/nachos-3.4/code/userprog/exception.cc:73-80 | PrevPC gets the old PC and PC the old NextPC, NextPC moves 4 past it, and no other register changes; straight-line code moves on by exactly one instruction |
| UserMachine.UserString | Project_03/22127022_22127154_22127210_22127413/Source/nachos/nachos-3.4/code/userprog/exception.cc:97-103 | at most limit bytes read from consecutive addresses, none NUL but possibly the last, which is NUL whenever fewer than limit were read |
| UserMachine.KernelBuffer | Project_03/22127022_22127154_22127210_22127413/Source/nachos/nachos-3.4/code/userprog/exception.cc:91-104 | limit+1 bytes whose last byte is NUL: the user string followed by zero fill |
| UserMachine.KernelString | Project_03/22127022_22127154_22127210_22127413/Source/nachos/nachos-3.4/code/userprog/exception.cc:86-105 | the C string in User2System's buffer: the user string without its NUL, at most limit bytes, with no NUL inside |
| UserMachine.KernelBufferString | Project_03/22127022_22127154_22127210_22127413/Source/nachos/nachos-3.4/code/userprog/exception.cc:91-104 | the kernel buffer is always NUL-terminated and its C string is the user string up to, not including, the first NUL |
| UserMachine.CopyOutCount | Project_03/22127022_22127154_22127210_22127413/Source/nachos/nachos-3.4/code/userprog/exception.cc:112-128 | -1 for a negative length and 0 for length 0; otherwise between 1 and len, stopping just after the first NUL of the buffer when there is one within len bytes |
| UserMachine.StoredAt | Project_03/22127022_22127154_22127210_22127413/Source/nachos/nachos-3.4/code/userprog/exception.cc:121-126 | storing bytes from v writes exactly addresses v to v+n-1 with the bytes in order and leaves every other address as it was |
| UserMachine.Machine.IncreasePC | Project_03/22127022_22127154_22127210_22127413/Source/nachos/nachos-3.4/code/userprog/exception.cc:73-80 | the registers become PCAdvanced of the old registers |
| UserMachine.Machine.User2System | Project_03/22127022_22127154_22127210_22127413/Source/nachos/nachos-3.4/code/userprog/exception.cc:86-105 | the returned buffer is KernelBuffer of user memory; an empty buffer for limit -1 |
| UserMachine.Machine.System2User | Project_03/22127022_22127154_22127210_22127413/Source/nachos/nachos-3.4/code/userprog/exception.cc:112-128 | returns CopyOutCount and user memory afterwards holds exactly those bytes from virtAddr on, every other address unchanged |
| Dispatch.Code | Project_02/22127022_22127154_22127210_22127413/Source/nachos/nachos-3.4/code/userprog/syscall.h:21-43 | each numbered call has a number in 0..10 or 41..51 |
| Dispatch.Decode | Project_02/22127022_22127154_22127210_22127413/Source/nachos/nachos-3.4/code/userprog/syscall.h:21-43 | a register value names a call exactly when it is in 0..10 or 41..51 |
| Dispatch.DecodeCode | Project_02/22127022_22127154_22127210_22127413/Source/nachos/nachos-3.4/code/userprog/syscall.h:21-43 | decoding a call's number gives the call back |
| Dispatch.CodeDecode | Project_02/22127022_22127154_22127210_22127413/Source/nachos/nachos-3.4/code/userprog/syscall.h:21-43 | a number that decodes is that call's number, so no two calls share a number |
| Dispatch.BaseDispatch | nachos/nachos-3.4/code/userprog/exception.cc:414-486 | NoException returns to the user and nothing else does; a handler runs exactly for a system call with a case (Halt, the console calls, CreateFile) and gets the call register 2 names; everything else halts |
| Dispatch.Project3Dispatch | Project_03/22127022_22127154_22127210_22127413/Source/nachos/nachos-3.4/code/userprog/exception.cc:857-953 | NoException returns to the user and nothing else does; a handler runs exactly for a named system call other than Fork and Yield; everything else halts |
| Dispatch.Project3ExtendsBase | Project_03/22127022_22127154_22127210_22127413/Source/nachos/nachos-3.4/code/userprog/exception.cc:864-913 | every call the base kernel handles runs the same handler in the Project_03 kernel |
| Dispatch.ForkAndYieldHalt | Project_03/22127022_22127154_22127210_22127413/Source/nachos/nachos-3.4/code/userprog/exception.cc:914-916 | Fork and Yield have numbers but no case in either kernel, so they halt the machine |
| FileSystemStub.AllocatedSlot | Project_03/22127022_22127154_22127210_22127413/Source/nachos/nachos-3.4/code/filesys/filesys.h:125-133 | the lowest empty slot in [2, 15), with every slot from 2 below it taken; -1 exactly when slots 2..14 are all taken; never 0 or 1 |
| FileSystemStub.EmptyFrom | Project_03/22127022_22127154_22127210_22127413/Source/nachos/nachos-3.4/code/filesys/filesys.h:127-132 | the lowest empty slot at or after i, or -1 exactly when none is empty |
| FileSystemStub.CreateResult | Project_03/22127022_22127154_22127210_22127413/Source/nachos/nachos-3.4/code/filesys/filesys.h:85-93 | Create succeeds exactly when the host open for writing gives a descriptor |
| FileSystemStub.OpenTyped | Project_03/22127022_22127154_22127210_22127413/Source/nachos/nachos-3.4/code/filesys/filesys.h:111-121 | no file exactly when the host open fails; otherwise a file on that descriptor tagged with the requested type, at position 0 |
| FileSystemStub.OpenUntyped | Project_03/22127022_22127154_22127210_22127413/Source/nachos/nachos-3.4/code/filesys/filesys.h:98-105 | no file exactly when the host open fails; otherwise a file on that descriptor at position 0 |
| FileSystemStub.FileSystem.constructor | Project_03/22127022_22127154_22127210_22127413/Source/nachos/nachos-3.4/code/filesys/filesys.h:56-68 | MAX_FILE = 15 slots: slot 0 holds "stdin" opened as STDIN, slot 1 "stdout" opened as STDOUT, slots 2..14 empty, index 2 |
| FileSystemStub.FileSystem.GetAllocatedSlot | Project_03/22127022_22127154_22127210_22127413/Source/nachos/nachos-3.4/code/filesys/filesys.h:125-133 | returns AllocatedSlot of the table and changes nothing |
| BaseSyscalls.PositiveDigitsAreDigits | nachos/nachos-3.4/code/userprog/exception.cc:45-54 | the digits the loop peels off a positive number, most significant first, are its decimal digits |
| BaseSyscalls.LastDigitStep | nachos/nachos-3.4/code/userprog/exception.cc:47-53 | a prefix spells n exactly when its last character is n's last digit and the rest spells n / 10, which is what one pass of the loop tests |
| BaseSyscalls.CompareNumAndString | nachos/nachos-3.4/code/userprog/exception.cc:32-57 | true exactly when s is the canonical decimal form of the number: "0" for 0, a '-' exactly for a negative number, no leading zeros, no extra characters |
| BaseSyscalls.ReadNumValue | nachos/nachos-3.4/code/userprog/exception.cc:72-98 | 0 for no input or any non-digit after an optional leading '-'; otherwise the 32-bit value of the digits with the sign ignored |
| BaseSyscalls.SysReadNum | nachos/nachos-3.4/code/userprog/exception.cc:72-98 | returns ReadNumValue of the bytes read |
| BaseSyscalls.ReadNumOfDecimal | nachos/nachos-3.4/code/userprog/exception.cc:83-97 | reading back the decimal form of an int gives its magnitude: the '-' is skipped but never applied |
| BaseSyscalls.ReadIntValue | nachos/nachos-3.4/code/userprog/exception.cc:281-301 | no value exactly for no input or a non-digit after the optional '-'; otherwise the signed 32-bit value of the digits |
| BaseSyscalls.ReadIntOfDecimal | nachos/nachos-3.4/code/userprog/exception.cc:286-300 | every int, INT_MIN included, reads back from its decimal form as itself |
| BaseSyscalls.HandleReadInt | nachos/nachos-3.4/code/userprog/exception.cc:274-303 | on no input or a non-digit the registers are unchanged, the PC included; otherwise r2 gets ReadIntValue and the PC advances |
| BaseSyscalls.IndexOf | nachos/nachos-3.4/code/userprog/exception.cc:327-333 | the index of the first occurrence of the character, or the length when there is none |
| BaseSyscalls.FloatFromParts | nachos/nachos-3.4/code/userprog/exception.cc:327-358 | registers exist exactly when both the whole part and the fraction are digit strings |
| BaseSyscalls.ReadFloatSplit | nachos/nachos-3.4/code/userprog/exception.cc:326-354 | input containing a '.' is split at its first '.' into whole part and fraction, with the sign taken from the whole part |
| BaseSyscalls.ReadFloatDropsLeadingZero | nachos/nachos-3.4/code/userprog/exception.cc:344-358 | a zero just after the '.' is lost: "w.0f" and "w.f" give the same registers |
| BaseSyscalls.HandleReadFloat | nachos/nachos-3.4/code/userprog/exception.cc:313-364 | on no input or a bad character in either part the registers are unchanged, the PC included; otherwise r2 gets the signed whole part, r3 the fraction's value, and the PC advances |
| BaseSyscalls.ScanWhole | nachos/nachos-3.4/code/userprog/exception.cc:326-340 | ok exactly when all characters before the first '.' are digits, and then it stops at that '.' or the end with their 32-bit value |
| BaseSyscalls.ScanDigits | nachos/nachos-3.4/code/userprog/exception.cc:344-354 | ok exactly when every character from the start position on is a digit, and then the 32-bit value of those digits; none are read when the start is past the end |
| BaseSyscalls.HandleCreateFile | nachos/nachos-3.4/code/userprog/exception.cc:375-410 | the host is asked for the C string at r4, at most 33 bytes; an allocation or create failure writes -1 to r2 and leaves the PC alone; success writes 0 and advances the PC |
| Project3Files.Filled | Project_03/22127022_22127154_22127210_22127413/Source/nachos/nachos-3.4/code/userprog/exception.cc:559 | the kernel buffer with the delivered bytes at its front and the rest of the buffer as it was |
| Project3Files.HandleOpen | Project_03/22127022_22127154_22127210_22127413/Source/nachos/nachos-3.4/code/userprog/exception.cc:456-502 | r2 gets OpenResult: -1 with no free slot in [2, 15), the free slot or -1 for READ_WRITE and READ_ONLY, 0 for STDIN, 1 for any other type; only a regular open with a free slot stores into the table; the PC advances |
| Project3Files.OpenResult | Project_03/22127022_22127154_22127210_22127413/Source/nachos/nachos-3.4/code/userprog/exception.cc:465-500 | -1, 0, 1, or an empty slot in [2, 15); a regular open that succeeds gets the lowest empty slot; -1 means no free slot or a failed regular open |
| Project3Files.OpenOutcome | Project_03/22127022_22127154_22127210_22127413/Source/nachos/nachos-3.4/code/userprog/exception.cc:465-495 | -1 exactly when no slot is free or a regular host open fails, and then the table is unchanged; a regular success returns the lowest free slot in [2, 15), which then holds the new file at position 0; STDIN gives 0 and other types 1, storing nothing |
| Project3Files.CloseResult | Project_03/22127022_22127154_22127210_22127413/Source/nachos/nachos-3.4/code/userprog/exception.cc:510-519 | 0 exactly for 0 <= id < MAX_FILE with a live entry, the console slots 0 and 1 included; -1 otherwise |
| Project3Files.ClosedTable | Project_03/22127022_22127154_22127210_22127413/Source/nachos/nachos-3.4/code/userprog/exception.cc:510-515 | a live slot is emptied and nothing else changes; otherwise the table is unchanged |
| Project3Files.HandleClose | Project_03/22127022_22127154_22127210_22127413/Source/nachos/nachos-3.4/code/userprog/exception.cc:505-523 | r2 gets CloseResult, the table becomes ClosedTable, and the PC advances |
| Project3Files.CloseUndoesOpen | Project_03/22127022_22127154_22127210_22127413/Source/nachos/nachos-3.4/code/userprog/exception.cc:465-519 | closing the slot a regular Open returned succeeds and restores the table Open started from; closing it again fails |
| Project3Files.HandleRead | Project_03/22127022_22127154_22127210_22127413/Source/nachos/nachos-3.4/code/userprog/exception.cc:526-581 | r2 gets ReadResult, a file read moves that file's position on by the bytes delivered, the delivered bytes are copied back to the user buffer, and the PC advances |
| Project3Files.ReadResult | Project_03/22127022_22127154_22127210_22127413/Source/nachos/nachos-3.4/code/userprog/exception.cc:536-572 | at least -2; -1 exactly when the id is out of range, the slot is empty or the file is STDOUT; -2 only for a file read that delivered nothing |
| Project3Files.ReadOutcome | Project_03/22127022_22127154_22127210_22127413/Source/nachos/nachos-3.4/code/userprog/exception.cc:536-572 | -1 exactly for an out-of-range id, an empty slot or a STDOUT file, and then nothing changes; STDIN gives the console count and keeps the table; a file read gives -2 exactly when the position stays, else the position advance, with no other slot changed |
| Project3Files.ReadCopiesData | Project_03/22127022_22127154_22127210_22127413/Source/nachos/nachos-3.4/code/userprog/exception.cc:563-567 | after a file read the user buffer holds the bytes read up to and including the first NUL, and every other address keeps its byte |
| Project3Files.WriteGuardAdmitsOnePastEnd | Project_03/22127022_22127154_22127210_22127413/Source/nachos/nachos-3.4/code/userprog/exception.cc:594 | the id MAX_FILE passes the descriptor check as written but names no slot of the 15-slot table |
| Project3Files.WriteIdCheck | Project_03/22127022_22127154_22127210_22127413/Source/nachos/nachos-3.4/code/userprog/exception.cc:594 | the corrected check admits exactly 0 <= id < MAX_FILE, rejects everything the written one rejects, and differs from it only at MAX_FILE |
| Project3Files.LineEnd | Project_03/22127022_22127154_22127210_22127413/Source/nachos/nachos-3.4/code/userprog/exception.cc:624 | the index of the first NUL or newline of the buffer, with neither before it |
| Project3Files.Echoed | Project_03/22127022_22127154_22127210_22127413/Source/nachos/nachos-3.4/code/userprog/exception.cc:623-630 | the console output ends in one newline and holds no NUL or newline before it |
| Project3Files.StdoutCountAsWrittenMiscounts | Project_03/22127022_22127154_22127210_22127413/Source/nachos/nachos-3.4/code/userprog/exception.cc:631 | as written, echoing "" reports -1, the failure code, and echoing "hi" reports 1 although 2 bytes of the string went out |
| Project3Files.StdoutCount | Project_03/22127022_22127154_22127210_22127413/Source/nachos/nachos-3.4/code/userprog/exception.cc:623-631 | the corrected STDOUT count is the number of the string's bytes that went to the console, never negative |
| Project3Files.EchoLine | Project_03/22127022_22127154_22127210_22127413/Source/nachos/nachos-3.4/code/userprog/exception.cc:623-630 | stops at the first NUL or newline and outputs exactly Echoed of the buffer |
| Project3Files.HandleWrite | Project_03/22127022_22127154_22127210_22127413/Source/nachos/nachos-3.4/code/userprog/exception.cc:584-641 | r2 gets WriteResult with the corrected id check and STDOUT count; a positive host write moves the file's position on by that count; a STDOUT write echoes the line; the PC advances |
| Project3Files.WriteIdRejectedAsWritten | Project_03/22127022_22127154_22127210_22127413/Source/nachos/nachos-3.4/code/userprog/exception.cc:594 | every id the written guard rejects, the corrected guard rejects too |
| Project3Files.StdoutCountAsWritten | Project_03/22127022_22127154_22127210_22127413/Source/nachos/nachos-3.4/code/userprog/exception.cc:623-631 | the written count is at least -1; it is -1, the error code, exactly when the line before the first NUL or newline is empty; otherwise it is two less than the bytes the console received (the line and its newline) |
| Project3Files.WriteResult | Project_03/22127022_22127154_22127210_22127413/Source/nachos/nachos-3.4/code/userprog/exception.cc:589-641 | at least -3; -1 exactly when the checks fail; a count of zero or more only for a READ_WRITE or STDOUT file |
| Project3Files.WriteOutcome | Project_03/22127022_22127154_22127210_22127413/Source/nachos/nachos-3.4/code/userprog/exception.cc:594-632 | -1 exactly when the checks fail, and then the table is unchanged; a changed table means a host write, whose count is the position advance; a STDOUT write keeps the table and reports the bytes echoed before the newline |
| Project3Files.SeekAsWrittenMovesConsole | Project_03/22127022_22127154_22127210_22127413/Source/nachos/nachos-3.4/code/userprog/exception.cc:832-848 | as written, Seek(0) on the console input moves it and reports success, although the check before says console files cannot be sought |
| Project3Files.HandleSeek | Project_03/22127022_22127154_22127210_22127413/Source/nachos/nachos-3.4/code/userprog/exception.cc:816-853 | with the checks returning as their messages say: r2 gets SeekResult, a success sets the file's position, and the PC advances |
| Project3Files.SeekAsWritten | Project_03/22127022_22127154_22127210_22127413/Source/nachos/nachos-3.4/code/userprog/exception.cc:822-848 | the written Seek on a live slot: -1 with the table kept, or a position in [0, length] stored in that slot alone |
| Project3Files.SeekResult | Project_03/22127022_22127154_22127210_22127413/Source/nachos/nachos-3.4/code/userprog/exception.cc:816-853 | -1 whenever the checks fail; otherwise -1 or a position in [0, length] |
| Project3Files.SeekOutcome | Project_03/22127022_22127154_22127210_22127413/Source/nachos/nachos-3.4/code/userprog/exception.cc:816-853 | the corrected Seek agrees with the written one on every regular file and refuses console files; a success is a position in [0, length] that the file now holds; -1 seeks to the end |
| Project3Files.HandleCreateFile | Project_03/22127022_22127154_22127210_22127413/Source/nachos/nachos-3.4/code/userprog/exception.cc:422-454 | the host is handed the C string at r4 read with a limit of 33 bytes; r2 gets 0 exactly when the buffer was allocated and the host created the file, else -1, and the PC advances on every path |
| Project3Process.Reply | Project_03/22127022_22127154_22127210_22127413/Source/nachos/nachos-3.4/code/userprog/exception.cc:661-668 | r2 gets the answer, then the PC advances; no other register changes |
| Project3Process.ExecName | Project_03/22127022_22127154_22127210_22127413/Source/nachos/nachos-3.4/code/userprog/exception.cc:648-659 | -1 with bitmap and slots unchanged when the executable cannot be opened, the name is refused or the table is full; otherwise the lowest clear slot, now marked and holding a PCB with the name copied from r4 and the caller as parent |
| Project3Process.HandleExec | Project_03/22127022_22127154_22127210_22127413/Source/nachos/nachos-3.4/code/userprog/exception.cc:644-669 | r2 gets ExecName's answer and the PC advances; the table changes only on success, exactly as ExecUpdate changes it |
| Project3Process.HandleJoinBegin | Project_03/22127022_22127154_22127210_22127413/Source/nachos/nachos-3.4/code/userprog/exception.cc:672-678 | an id that is no live child of the caller gives -1 in r2 and advances the PC; a live child leaves the registers for the second step and adds 1 to the caller's numwait |
| Project3Process.HandleJoinEnd | Project_03/22127022_22127154_22127210_22127413/Source/nachos/nachos-3.4/code/userprog/exception.cc:678-683 | once the child released joinsem: r2 gets the exit code the child stored, the PC advances, the child's joinsem drops by 1 and its exitsem grows by 1 |
| Project3Process.HandleExitBegin | Project_03/22127022_22127154_22127210_22127413/Source/nachos/nachos-3.4/code/userprog/exception.cc:686-700 | a nonzero status only advances the PC, never calling ExitUpdate; status 0 for process 0 halts; an unmarked caller gets -1 in r2; a live caller stores code 0, releases its joiner, lowers its parent's numwait unless it is zero, leaves the parent's mutex, exitcode and joinsem alone, and waits for its parent |
| Project3Process.HandleExitEnd | Project_03/22127022_22127154_22127210_22127413/Source/nachos/nachos-3.4/code/userprog/exception.cc:700-707 | once the parent released exitsem: the slot is cleared and emptied and r2 gets the stored exit code; the PC is not advanced because the thread finishes |
| Project3Process.UserName | Project_03/22127022_22127154_22127210_22127413/Source/nachos/nachos-3.4/code/userprog/exception.cc:720 | the C string User2System copies from r4 with a limit of 32 bytes |
| Project3Process.HandleCreateSemaphore | Project_03/22127022_22127154_22127210_22127413/Source/nachos/nachos-3.4/code/userprog/exception.cc:712-744 | r2 gets -1 when a semaphore of that name exists or the table is full, with the table unchanged; otherwise 0, and the lowest free slot holds a new semaphore with the name from r4 and the value from r5; the PC advances |
| Project3Process.SignalByName | Project_03/22127022_22127154_22127210_22127413/Source/nachos/nachos-3.4/code/userprog/exception.cc:754-799 | -1 exactly for an unknown name; the first semaphore of the name has 1 added (Up) or taken (Down) and no other counter changes |
| Project3Process.HandleDown | Project_03/22127022_22127154_22127210_22127413/Source/nachos/nachos-3.4/code/userprog/exception.cc:747-779 | r2 gets -1 for an unknown name, else 0 after a P on the first semaphore of that name; the PC advances |
| Project3Process.HandleUp | Project_03/22127022_22127154_22127210_22127413/Source/nachos/nachos-3.4/code/userprog/exception.cc:782-813 | r2 gets -1 for an unknown name, else 0 after a V on the first semaphore of that name; the PC advances |
| Project3ReadInt.NumberBuffer | Project_03/22127022_22127154_22127210_22127413/Source/nachos/nachos-3.4/code/userprog/exception.cc:256-259 | the buffer holds MAX_NUM_LENGTH + 2 bytes, starts with what the console delivered and is zero elsewhere |
| Project3ReadInt.AccumulateDigits | Project_03/22127022_22127154_22127210_22127413/Source/nachos/nachos-3.4/code/userprog/exception.cc:272-308 | the loop yields the value of the digit run that starts at the first digit position, or 0 once that value would pass INT_MAX |
| Project3ReadInt.HandleReadInt | Project_03/22127022_22127154_22127210_22127413/Source/nachos/nachos-3.4/code/userprog/exception.cc:252-324 | r2 gets the value ReadIntResult describes for the delivered bytes, on every input, and the PC advances |
| Project3ReadInt.ReadIntResultInRange | Project_03/22127022_22127154_22127210_22127413/Source/nachos/nachos-3.4/code/userprog/exception.cc:315-320 | the written value is always a 32-bit int |
| Project3ReadInt.ReadIntOfDecimal | Project_03/22127022_22127154_22127210_22127413/Source/nachos/nachos-3.4/code/userprog/exception.cc:252-324 | every 32-bit int typed in its decimal form is read back as that int, INT_MIN included |
| Project3ReadInt.ReadIntOverflow | Project_03/22127022_22127154_22127210_22127413/Source/nachos/nachos-3.4/code/userprog/exception.cc:285-303 | digits worth more than INT_MAX after an optional '-' read as 0, apart from the text "-2147483648" |
| Project3ReadInt.ReadIntStopsAtNonDigit | Project_03/22127022_22127154_22127210_22127413/Source/nachos/nachos-3.4/code/userprog/exception.cc:274-283 | at the first non-digit the reading stops and the result is the signed value of the digits before it, whatever follows |
| Project3ReadInt.NotIntMinText | Project_03/22127022_22127154_22127210_22127413/Source/nachos/nachos-3.4/code/userprog/exception.cc:261 | a sign, digits worth at most INT_MAX and a non-digit never make strcmp see "-2147483648" |
| Project3ReadInt.DigitsOfIntMin | Project_03/22127022_22127154_22127210_22127413/Source/nachos/nachos-3.4/code/userprog/exception.cc:261-264 | the decimal form of INT_MIN is the text the handler compares against |
| Project3ReadInt.DecimalStringInjective | Project_03/22127022_22127154_22127210_22127413/Source/nachos/nachos-3.4/code/userprog/exception.cc:261-264 | distinct ints have distinct decimal forms, so only INT_MIN matches that text |
| Fat32.Extracted | Project_01/22127022_22127154_22127210_22127413/Source/HDH_PROJECT1/Volume.cpp:84-91 | bytes start..end read little-endian, kept modulo 2^64 as a uint64 keeps them; always below 2^64 |
| Fat32.ExtractedExact | Project_01/22127022_22127154_22127210_22127413/Source/HDH_PROJECT1/Volume.cpp:84-91 | up to eight bytes are read exactly, with no wrap-around |
| Fat32.ExtractSector | Project_01/22127022_22127154_22127210_22127413/Source/HDH_PROJECT1/Volume.cpp:84-91 | the loop from end down to start computes the little-endian value of the bytes modulo 2^64; an empty range gives 0 |
| Fat32.NextCluster | Project_01/22127022_22127154_22127210_22127413/Source/HDH_PROJECT1/Volume.cpp:278 | the cluster moved to is the FAT value at 4c in uint32 arithmetic, below 2^32; None when the five bytes read lie outside the FAT |
| Fat32.NextIsFourByteEntry | Project_01/22127022_22127154_22127210_22127413/Source/HDH_PROJECT1/Volume.cpp:278 | the fifth byte read is lost in the uint32 store, so the next cluster is exactly the 4-byte FAT entry |
| Fat32.Walk | Project_01/22127022_22127154_22127210_22127413/Source/HDH_PROJECT1/Volume.cpp:273-281 | the walk from a cluster pushes at most one cluster per step of its bound |
| Fat32.WalkFollowsFat | Project_01/22127022_22127154_22127210_22127413/Source/HDH_PROJECT1/Volume.cpp:273-281 | the chain starts at the start cluster, never holds ENDED, goes from each cluster to its FAT entry, and on a normal end the last entry is ENDED |
| Fat32.WalkStable | Project_01/22127022_22127154_22127210_22127413/Source/HDH_PROJECT1/Volume.cpp:273-281 | a walk that ended before its bound is the same under any larger bound |
| Fat32.SelfLoopNeverEnds | Project_01/22127022_22127154_22127210_22127413/Source/HDH_PROJECT1/Volume.cpp:276-279 | a cluster whose FAT entry names itself keeps the loop going whatever the bound |
| Fat32.Chars | Project_01/22127022_22127154_22127210_22127413/Source/HDH_PROJECT1/Volume.cpp:212-218 | each byte becomes the char with the same code, one for one |
| Fat32.NonSpace | Project_01/22127022_22127154_22127210_22127413/Source/HDH_PROJECT1/Volume.cpp:210-214 | the chars of the bytes other than spaces, in order; none of them a space |
| Fat32.IsFolder | Project_01/22127022_22127154_22127210_22127413/Source/HDH_PROJECT1/Volume.cpp:36-39 | a folder record has the D bit of its attribute byte set and the other five clear |
| Fat32.IsDeletedEntry | Project_01/22127022_22127154_22127210_22127413/Source/HDH_PROJECT1/Volume.cpp:41-44 | a deleted record is never the 0x00 end-of-directory mark |
| Fat32.IsSpecialEntry | Project_01/22127022_22127154_22127210_22127413/Source/HDH_PROJECT1/Volume.cpp:46-49 | a long-name record has the R, H, S and V bits set, D and A clear, and is never a folder |
| Fat32.IsLongNameEntry | Project_01/22127022_22127154_22127210_22127413/Source/HDH_PROJECT1/Volume.cpp:51-54 | true exactly when byte 6 reads as '~', the mark of a generated "~N" short name |
| Fat32.LongNameMarkKept | Project_01/22127022_22127154_22127210_22127413/Source/HDH_PROJECT1/Volume.cpp:51-54 | a record marked by '~' at byte 6 keeps that '~' in the short name it is listed under, whether file or folder |
| Fat32.ShortName | Project_01/22127022_22127154_22127210_22127413/Source/HDH_PROJECT1/Volume.cpp:206-225 | an 8.3 key of at most 12 chars; a file key has at least 4 chars with the '.' fourth from the end |
| Fat32.ShortNameShape | Project_01/22127022_22127154_22127210_22127413/Source/HDH_PROJECT1/Volume.cpp:206-225 | a file's key ends in '.' and its three extension bytes, a folder's key is at most eight chars and holds no space |
| Fat32.ShortNameExtension | Project_01/22127022_22127154_22127210_22127413/Source/HDH_PROJECT1/Volume.cpp:215-219 | for a file record whose extension bytes hold no '.', the extension get_file_extension finds in its key is those three bytes |
| Fat32.NamedUpTo | Project_01/22127022_22127154_22127210_22127413/Source/HDH_PROJECT1/Volume.cpp:93-110 | no more records are named than whole records precede the offset |
| Fat32.ListingSound | Project_01/22127022_22127154_22127210_22127413/Source/HDH_PROJECT1/Volume.cpp:93-110 | every key of the map ExtractEntry builds maps to a live record, earlier than the offset, whose key it is |
| Fat32.ListingComplete | Project_01/22127022_22127154_22127210_22127413/Source/HDH_PROJECT1/Volume.cpp:93-110 | every live record's key is present, held by that record or a later one with the same key |
| Fat32.ListingSize | Project_01/22127022_22127154_22127210_22127413/Source/HDH_PROJECT1/Volume.cpp:93-110 | the map has no more keys than the count ExtractEntry returns |
| Fat32.AttributeBits | Project_01/22127022_22127154_22127210_22127413/Source/HDH_PROJECT1/Volume.cpp:349-354 | bits 0 to 5 of the attribute byte tested by Dir are READONLY, HIDDEN, SYSTEM, VOLLABEL, DIRECTORY and ARCHIVE |
| Fat32.StartCluster | Project_01/22127022_22127154_22127210_22127413/Source/HDH_PROJECT1/Volume.cpp:283-288 | the start cluster of a record is high word times 65536 plus low word, in uint32 |
| Fat32.StartClusterHalves | Project_01/22127022_22127154_22127210_22127413/Source/HDH_PROJECT1/Volume.cpp:283-288 | both words come back out: the high word above bit 16 and the low word below it |
| Fat32.Url | Project_01/22127022_22127154_22127210_22127413/Source/HDH_PROJECT1/Volume.cpp:290-297 | the path starts with "." whatever the stack |
| Fat32.DirectoryCluster | Project_01/22127022_22127154_22127210_22127413/Source/HDH_PROJECT1/Volume.cpp:386-391 | the cluster cd records is never 0: a start cluster 0 stands for cluster 2, any other is kept |
| Fat32.EnterThenLeave | Project_01/22127022_22127154_22127210_22127413/Source/HDH_PROJECT1/Volume.cpp:380-385 | entering a folder pushes it, adding "/" and its name to the path, and a following ".." pops it again |
| Fat32.FirstEmptyFrom | Project_01/22127022_22127154_22127210_22127413/Source/HDH_PROJECT1/Volume.cpp:184-190 | the first record offset at or after i whose first byte is 0x00, or None when every later record is in use |
| Fat32.EntryRecords | Project_01/22127022_22127154_22127210_22127413/Source/HDH_PROJECT1/Volume.cpp:184-190 | the records taken are a prefix of the cluster's bytes, whole records with none marked 0x00, stopping just before the first record marked 0x00 |
| Fat32.UnmarkedClusterIsDropped | Project_01/22127022_22127154_22127210_22127413/Source/HDH_PROJECT1/Volume.cpp:184-190 | a cluster without a 0x00-marked record contributes no records at all |
| Fat32.ConvertClusterToSector | Project_01/22127022_22127154_22127210_22127413/Source/HDH_PROJECT1/Volume.cpp:79-82 | reserved sectors plus the FATs plus (c - 2) clusters, in uint32 arithmetic |
| Fat32.ClusterSectorIsStandard | Project_01/22127022_22127154_22127210_22127413/Source/HDH_PROJECT1/Volume.cpp:79-82 | without wrap-around this is the FirstSectorofCluster of the FAT32 standard, which has no root directory region |
| Fat32.RdetEntry | Project_01/22127022_22127154_22127210_22127413/Source/HDH_PROJECT1/Volume.cpp:194-204 | what ReadRdet leaves in Entry is whole records whenever Entry held whole records before |
| Fat32.RdetKeepsLastCluster | Project_01/22127022_22127154_22127210_22127413/Source/HDH_PROJECT1/Volume.cpp:179-187 | each ReadEntry clears Entry first, so only the last cluster of a chain of two or more reaches Entry |
| Fat32.CdStep | Project_01/22127022_22127154_22127210_22127413/Source/HDH_PROJECT1/Volume.cpp:373-392 | one component: a missing or empty name fails with the stack and cluster kept; a found one updates the stack as cd does; Entry is the reread root directory |
| Fat32.CdWalk | Project_01/22127022_22127154_22127210_22127413/Source/HDH_PROJECT1/Volume.cpp:370-394 | cd over the components leaves whole records in Entry |
| Fat32.CdStopsAtMissing | Project_01/22127022_22127154_22127210_22127413/Source/HDH_PROJECT1/Volume.cpp:376-378 | a component missing from the directory read makes cd fail with the stack and cluster as they were |
| Fat32.CdThereAndBack | Project_01/22127022_22127154_22127210_22127413/Source/HDH_PROJECT1/Volume.cpp:380-385 | cd into a folder and then through its ".." gets back to the same stack |
| Fat32.CdWalkAppend | Project_01/22127022_22127154_22127210_22127413/Source/HDH_PROJECT1/Volume.cpp:373-392 | cd of p followed by q is cd of q after a successful cd of p, and the failure of p otherwise |
| Fat32.Volume.constructor | Project_01/22127022_22127154_22127210_22127413/Source/HDH_PROJECT1/Volume.cpp:20-23 | Init's state: every buffer empty and every field zero |
| Fat32.Volume.Init | Project_01/22127022_22127154_22127210_22127413/Source/HDH_PROJECT1/Volume.cpp:58-77 | every buffer emptied, every boot-sector field zeroed, the path stack and the directory cleared |
| Fat32.Volume.ReadBootSector | Project_01/22127022_22127154_22127210_22127413/Source/HDH_PROJECT1/Volume.cpp:162-166 | the field at the offset is the little-endian value of its bytes |
| Fat32.Volume.SetupBootsector | Project_01/22127022_22127154_22127210_22127413/Source/HDH_PROJECT1/Volume.cpp:112-126 | false exactly when the read fails, leaving the fields; otherwise each field holds the little-endian value at its boot-sector offset |
| Fat32.Volume.ReadBootFields | Project_01/22127022_22127154_22127210_22127413/Source/HDH_PROJECT1/Volume.cpp:118-124 | the seven fields at offsets 0x0B, 0x0D, 0x0E, 0x10, 0x11, 0x24 and 0x2C with their lengths |
| Fat32.Volume.ReadFat | Project_01/22127022_22127154_22127210_22127413/Source/HDH_PROJECT1/Volume.cpp:130-175 | true exactly when the device opened and was read; the FAT is NumFATs times FATSz32 sectors read from the first sector after the reserved ones, offsets in uint32, and stays empty when the device did not open |
| Fat32.Volume.GetRdetCluster | Project_01/22127022_22127154_22127210_22127413/Source/HDH_PROJECT1/Volume.cpp:273-281 | the loop pushes exactly the clusters Walk describes and reports why it stopped |
| Fat32.Volume.ReadEntry | Project_01/22127022_22127154_22127210_22127413/Source/HDH_PROJECT1/Volume.cpp:177-192 | Entry becomes the records of the cluster read up to its end-of-directory mark |
| Fat32.Volume.ReadRdet | Project_01/22127022_22127154_22127210_22127413/Source/HDH_PROJECT1/Volume.cpp:194-204 | Entry after reading every cluster of the chain from the root cluster is RdetEntry |
| Fat32.Volume.ReadShortName | Project_01/22127022_22127154_22127210_22127413/Source/HDH_PROJECT1/Volume.cpp:206-225 | the directory gets the record's short name mapped to its offset, nothing else changes |
| Fat32.Volume.ExtractEntry | Project_01/22127022_22127154_22127210_22127413/Source/HDH_PROJECT1/Volume.cpp:93-110 | the directory becomes the listing of Entry, every key anchored at a whole record, and the count is the number of live records |
| Fat32.Volume.GetURL | Project_01/22127022_22127154_22127210_22127413/Source/HDH_PROJECT1/Volume.cpp:290-297 | the loop yields Url of the folder stack |
| Fat32.Volume.Dir | Project_01/22127022_22127154_22127210_22127413/Source/HDH_PROJECT1/Volume.cpp:342-358 | Entry and the directory are reread; one line per name, each describing the attribute bits of that name's record; the lines are keyed by name, the order in which the source's std::map prints them |
| Fat32.Volume.FileText | Project_01/22127022_22127154_22127210_22127413/Source/HDH_PROJECT1/Volume.cpp:257-269 | ReadContent prints a prefix of the start cluster's first sector, DIR_FileSize long unless the sector is shorter |
| Fat32.Volume.Open | Project_01/22127022_22127154_22127210_22127413/Source/HDH_PROJECT1/Volume.cpp:360-368 | true exactly for a name in the directory with extension TXT in any case, with that file's text; otherwise nothing |
| Fat32.Volume.ReadContent | Project_01/22127022_22127154_22127210_22127413/Source/HDH_PROJECT1/Volume.cpp:257-269 | the loop prints FileText of the record the name maps to |
| Fat32.Volume.Cd | Project_01/22127022_22127154_22127210_22127413/Source/HDH_PROJECT1/Volume.cpp:370-394 | ok, the stack, the current cluster and Entry are those of CdWalk over the split path; the directory is the last one read |
| Fat32.Volume.EnterFolder | Project_01/22127022_22127154_22127210_22127413/Source/HDH_PROJECT1/Volume.cpp:374-391 | one pass of cd's loop agrees with CdStep |
| Fat32.Volume.Connect | Project_01/22127022_22127154_22127210_22127413/Source/HDH_PROJECT1/Volume.cpp:332-340 | Init, the path and the stack start at the drive name, then the boot sector and the FAT are read; both reads' flags are dropped and true is returned |
| Fat32.AttributeLine | Project_01/22127022_22127154_22127210_22127413/Source/HDH_PROJECT1/Volume.cpp:349-354 | the line is " RHSVDA " and the name, with letter k kept exactly when bit k-1 of the attribute byte is set |
| Fat32.AttributeLines | Project_01/22127022_22127154_22127210_22127413/Source/HDH_PROJECT1/Volume.cpp:346-356 | one attribute line per name of the directory, each describing that name's record |
| Fat32.TxtExtension | Project_01/22127022_22127154_22127210_22127413/Source/HDH_PROJECT1/Volume.cpp:363 | "txt" and "TXT" both pass Open's case-insensitive test |
| Fat32.OpenShortTxt | Project_01/22127022_22127154_22127210_22127413/Source/HDH_PROJECT1/Volume.cpp:360-368 | Open accepts a file record with extension bytes txt or TXT exactly when its name is in the directory |
| Console.ToUpper | Project_01/22127022_22127154_22127210_22127413/Source/HDH_PROJECT1/Console.cpp:347-348 | ::toupper in the C locale: a lower-case letter moves up by 32 to its capital, every other char is kept |
| Console.Untab | Project_01/22127022_22127154_22127210_22127413/Source/HDH_PROJECT1/Console.cpp:309 | every tab becomes a space, everything else stays in place |
| Console.LeadingSpaces | Project_01/22127022_22127154_22127210_22127413/Source/HDH_PROJECT1/Console.cpp:310-312 | the whitespace run the string starts with, ended by a non-space or the end |
| Console.TrailingSpaces | Project_01/22127022_22127154_22127210_22127413/Source/HDH_PROJECT1/Console.cpp:313-315 | the whitespace run the string ends with, preceded by a non-space or the start |
| Console.SimplifyStr | Project_01/22127022_22127154_22127210_22127413/Source/HDH_PROJECT1/Console.cpp:307-317 | the result holds no tab and neither starts nor ends with whitespace |
| Console.SimplifyTrimsOnlySpace | Project_01/22127022_22127154_22127210_22127413/Source/HDH_PROJECT1/Console.cpp:307-317 | only whitespace is removed: the result sits in the tab-free input between two whitespace runs |
| Console.SimplifyIdempotent | Project_01/22127022_22127154_22127210_22127413/Source/HDH_PROJECT1/Console.cpp:307-317 | simplifying twice gives what simplifying once gives |
| Console.Undelimited | Project_01/22127022_22127154_22127210_22127413/Source/HDH_PROJECT1/Console.cpp:319-338 | the characters that are not delimiters, no more of them than the string has |
| Console.SplitStateInvariant | Project_01/22127022_22127154_22127210_22127413/Source/HDH_PROJECT1/Console.cpp:323-333 | every pushed token is non-empty and delimiter-free, and the pushed tokens and the pending one spell the input without its delimiters |
| Console.SplitTokens | Project_01/22127022_22127154_22127210_22127413/Source/HDH_PROJECT1/Console.cpp:319-338 | split_str yields non-empty, delimiter-free tokens that spell the input without its delimiters |
| Console.SplitStr | Project_01/22127022_22127154_22127210_22127413/Source/HDH_PROJECT1/Console.cpp:319-338 | the loop computes Split of the input |
| Console.Upper | Project_01/22127022_22127154_22127210_22127413/Source/HDH_PROJECT1/Console.cpp:347-348 | each char replaced by its ::toupper |
| Console.CaseSensitiveEq | Project_01/22127022_22127154_22127210_22127413/Source/HDH_PROJECT1/Console.cpp:340-350 | true exactly when the lengths agree and the strings agree position by position after ::toupper |
| Console.CaseEqEquivalence | Project_01/22127022_22127154_22127210_22127413/Source/HDH_PROJECT1/Console.cpp:340-350 | the comparison is reflexive, symmetric and transitive, and relates a string to its upper-case form |
| Console.GetAlnum | Project_01/22127022_22127154_22127210_22127413/Source/HDH_PROJECT1/Console.cpp:353-360 | only alphanumeric characters are kept, no more than the input has |
| Console.GetAlnumConcat | Project_01/22127022_22127154_22127210_22127413/Source/HDH_PROJECT1/Console.cpp:353-360 | filtering a concatenation filters each part |
| Console.GetAlnumDropsOthers | Project_01/22127022_22127154_22127210_22127413/Source/HDH_PROJECT1/Console.cpp:353-360 | a string without alphanumeric characters filters to the empty string; together with GetAlnumConcat and GetAlnumKeeps this fixes the filter: each alphanumeric character is kept, in order, and every other one is dropped |
| Console.GetAlnumKeeps | Project_01/22127022_22127154_22127210_22127413/Source/HDH_PROJECT1/Console.cpp:353-360 | an all-alphanumeric string is kept whole, so filtering twice is filtering once |
| Console.LastIndexOf | Project_01/22127022_22127154_22127210_22127413/Source/HDH_PROJECT1/Console.cpp:364 | find_last_of: the position of the last occurrence, none after it, or -1 |
| Console.GetFileExtension | Project_01/22127022_22127154_22127210_22127413/Source/HDH_PROJECT1/Console.cpp:362-369 | a dot-free suffix of the name, preceded by a '.' exactly when the name contains one; "" otherwise |
| Console.IndexOf | Project_01/22127022_22127154_22127210_22127413/Source/HDH_PROJECT1/Console.cpp:373 | find: the first position holding the char, or the length when there is none |
| Console.IndexOfIs | Project_01/22127022_22127154_22127210_22127413/Source/HDH_PROJECT1/Console.cpp:373 | the first occurrence is the position find reports |
| Console.GetDriveName | Project_01/22127022_22127154_22127210_22127413/Source/HDH_PROJECT1/Console.cpp:371-378 | the drive name is alphanumeric |
| Console.DriveNameOf | Project_01/22127022_22127154_22127210_22127413/Source/HDH_PROJECT1/Console.cpp:371-378 | "prefix:rest" with a non-empty colon-free prefix names the drive get_alnum(prefix) |
| Console.DriveNameEmpty | Project_01/22127022_22127154_22127210_22127413/Source/HDH_PROJECT1/Console.cpp:374-377 | a path without ':' or starting with ':' names no drive |
| Console.ReadToken | Project_01/22127022_22127154_22127210_22127413/Source/HDH_PROJECT1/Console.cpp:149-157 | ESC is read as a space, every other key as itself |
| Console.EscapeTerminates | Project_01/22127022_22127154_22127210_22127413/Source/HDH_PROJECT1/Console.cpp:153-155 | under the default terminators ESC ends ReadString as a space does |
| Console.StopAt | Project_01/22127022_22127154_22127210_22127413/Source/HDH_PROJECT1/Console.cpp:170-180 | input ends at the first key read as EOF or as a terminator, or at the end of the keys |
| Console.Edited | Project_01/22127022_22127154_22127210_22127413/Source/HDH_PROJECT1/Console.cpp:181-190 | the line-editing result is printable only, no longer than the keys, and made from keys typed |
| Console.Tokens | Project_01/22127022_22127154_22127210_22127413/Source/HDH_PROJECT1/Console.cpp:149-157 | the keys as ReadToken reads them, one for one |
| Console.IsTerminator | Project_01/22127022_22127154_22127210_22127413/Source/HDH_PROJECT1/Console.cpp:171-177 | true exactly when the token is one of the terminators |
| Console.ReadString | Project_01/22127022_22127154_22127210_22127413/Source/HDH_PROJECT1/Console.cpp:166-193 | the text is the edited keys before the first EOF or terminator, and the keys consumed include the one that ended input |
| Console.ReadStringPrintable | Project_01/22127022_22127154_22127210_22127413/Source/HDH_PROJECT1/Console.cpp:166-193 | what ReadString returns holds only printable characters and no terminator |
| Console.Stoi | Project_01/22127022_22127154_22127210_22127413/Source/HDH_PROJECT1/Console.cpp:216 | std::stoi skips leading whitespace, reads a sign and digits, throws invalid_argument without digits and out_of_range outside int; a value is always an int |
| Console.StoiDecimal | Project_01/22127022_22127154_22127210_22127413/Source/HDH_PROJECT1/Console.cpp:216 | the decimal form of every int parses back to that int |
| Console.RetryOutcome | Project_01/22127022_22127154_22127210_22127413/Source/HDH_PROJECT1/Console.cpp:211-232 | an accepted value always lies in [lower, upper] |
| Console.ReadIntInRange | Project_01/22127022_22127154_22127210_22127413/Source/HDH_PROJECT1/Console.cpp:211-232 | the retry loop returns the first line's value in range, skips invalid lines and out-of-range values, and aborts at out_of_range, which is not caught |
| Console.ReadOptions | Project_01/22127022_22127154_22127210_22127413/Source/HDH_PROJECT1/Console.cpp:234-246 | an accepted choice is one of the shown indices, from the start index to start + option count - 1 |
| NtfsUtility.Field | Project_01/22127022_22127154_22127210_22127413/Source/NTFS/Utility.cpp:3-10 | the value of size bytes from the offset, least significant first, kept below 2^64 as the uint64 accumulator keeps it; 0 for no bytes |
| NtfsUtility.FieldExact | Project_01/22127022_22127154_22127210_22127413/Source/NTFS/Utility.cpp:3-10 | up to eight bytes are read exactly and stay below 256^size |
| NtfsUtility.FieldOfEncoded | Project_01/22127022_22127154_22127210_22127413/Source/NTFS/Utility.cpp:3-10 | a value written little-endian in size bytes reads back as that value, whatever surrounds it |
| NtfsUtility.Convert2LE | Project_01/22127022_22127154_22127210_22127413/Source/NTFS/Utility.cpp:3-10 | the loop from the last byte down, shifting left by 8, computes Field |
| NtfsUtility.AttributeTypeName | Project_01/22127022_22127154_22127210_22127413/Source/NTFS/Utility.cpp:41-78 | every name starts with '$', and it is "$UNKNOWN" exactly for codes outside the sixteen attribute types |
| NtfsUtility.AttributeTypeNameInjective | Project_01/22127022_22127154_22127210_22127413/Source/NTFS/Utility.cpp:41-78 | distinct known attribute types get distinct names |
| NtfsUtility.FlagsName | Project_01/22127022_22127154_22127210_22127413/Source/NTFS/Utility.cpp:80-103 | "Unknown" exactly for flag words other than 0 to 7 and 0x20 |
| NtfsUtility.FlagsNameListsBits | Project_01/22127022_22127154_22127210_22127413/Source/NTFS/Utility.cpp:84-97 | for the combinations of read-only, hidden and system the name lists exactly the set bits in bit order, comma-separated |
| NtfsEntry.HeaderAt | Project_01/22127022_22127154_22127210_22127413/Source/NTFS/Entry.cpp:7-18 | the header decoded at an offset has every field within the width the Attribute class declares |
| NtfsEntry.ReadAttributeHeader | Project_01/22127022_22127154_22127210_22127413/Source/NTFS/Entry.cpp:7-18 | the nine header fields read at offsets 0x00 to 0x14 with their sizes are HeaderAt |
| NtfsEntry.EncodeHeader | Project_01/22127022_22127154_22127210_22127413/Source/NTFS/Entry.h:10-19 | the on-disk layout of a resident attribute header takes 0x16 bytes |
| NtfsEntry.HeaderRoundTrip | Project_01/22127022_22127154_22127210_22127413/Source/NTFS/Entry.cpp:7-18 | every header whose fields fit their widths reads back unchanged from its encoding, whatever follows it |
| NtfsEntry.EndOffsetOfContent | Project_01/22127022_22127154_22127210_22127413/Source/NTFS/Entry.cpp:19-22 | the end offset is computed in uint32, and without wrap-around it lies sizeOfContent bytes after the content start |
| NtfsEntry.Printable | Project_01/22127022_22127154_22127210_22127413/Source/NTFS/Entry.cpp:69-78 | a name unit in 0x20..0x7E becomes that char, any other unit becomes '.' |
| NtfsEntry.NameAt | Project_01/22127022_22127154_22127210_22127413/Source/NTFS/Entry.cpp:66-80 | the name has one char per two-byte unit, each the printable form of its unit |
| NtfsEntry.ContentAt | Project_01/22127022_22127154_22127210_22127413/Source/NTFS/Entry.cpp:46-100 | the decoded content kind agrees with the header type: $STANDARD_INFORMATION, $FILE_NAME and $DATA decode, every other type keeps no content |
| NtfsEntry.ReadFileName | Project_01/22127022_22127154_22127210_22127413/Source/NTFS/Entry.cpp:60-81 | the parent reference from 6 bytes, the namespace from byte 65 and the name from the units after byte 66 |
| NtfsEntry.ReadAttributeContent | Project_01/22127022_22127154_22127210_22127413/Source/NTFS/Entry.cpp:46-100 | each of the three decoded kinds reads the fields ContentAt describes; any other type reads nothing |
| NtfsEntry.DataSpansContent | Project_01/22127022_22127154_22127210_22127413/Source/NTFS/Entry.cpp:92-95 | a $DATA attribute's bytes span exactly from the content start to GetEndOffsetOfAttribute |
| NtfsEntry.AttributeOffsets | Project_01/22127022_22127154_22127210_22127413/Source/NTFS/Entry.cpp:118-127 | the walk yields at most one offset per step of its bound, each with a whole header inside the buffer |
| NtfsEntry.OffsetsChain | Project_01/22127022_22127154_22127210_22127413/Source/NTFS/Entry.cpp:118-127 | the walk starts at the first attribute and each offset is the previous one plus its size, in uint32 |
| NtfsEntry.WalkFindsTerminator | Project_01/22127022_22127154_22127210_22127413/Source/NTFS/Entry.cpp:119 | a walk that ended at the terminator found 0xFFFFFFFF right after the last attribute |
| NtfsEntry.ZeroSizeNeverTerminates | Project_01/22127022_22127154_22127210_22127413/Source/NTFS/Entry.cpp:119-126 | an attribute of size 0 that is not the terminator makes the loop spin in place until the bound runs out |
| NtfsEntry.WalkEndsWithinBuffer | Project_01/22127022_22127154_22127210_22127413/Source/NTFS/Entry.cpp:119-126 | when every header has a positive size that does not wrap, one step per remaining byte is never the reason the walk stops |
| NtfsEntry.OffsetsSkipTerminator | Project_01/22127022_22127154_22127210_22127413/Source/NTFS/Entry.cpp:119-126 | no offset the walk yields holds the terminator |
| NtfsEntry.FollowingAttribute | Project_01/22127022_22127154_22127210_22127413/Source/NTFS/Entry.cpp:122-125 | one step of the first loop moves on by the attribute's size, in uint32 |
| NtfsEntry.WalkAttributes | Project_01/22127022_22127154_22127210_22127413/Source/NTFS/Entry.cpp:117-127 | the first loop collects exactly the offsets AttributeOffsets describes and reports why it stopped |
| NtfsEntry.DecodedUpTo | Project_01/22127022_22127154_22127210_22127413/Source/NTFS/Entry.cpp:128-149 | the attributes decoded, in order, each with the header at its offset and content of the kind its type names; all of them when every content fitted |
| NtfsEntry.ReadAttributes | Project_01/22127022_22127154_22127210_22127413/Source/NTFS/Entry.cpp:128-149 | the second loop decodes exactly what DecodedUpTo describes |
| NtfsEntry.EntryOf | Project_01/22127022_22127154_22127210_22127413/Source/NTFS/Entry.cpp:109-150 | the entry's attribute start and id fit their widths, every attribute is typed, and after the terminator one attribute per offset walked |
| NtfsEntry.ReadEntry | Project_01/22127022_22127154_22127210_22127413/Source/NTFS/Entry.cpp:109-150 | the four header fields at 0x14, 0x16, 0x20 and 0x2C, then the two loops, give EntryOf |
| NtfsEntry.FirstOfKind | Project_01/22127022_22127154_22127210_22127413/Source/NTFS/Entry.cpp:167-173 | the position of the first attribute of a type, none before it, or the count when there is none |
| NtfsEntry.FindAttribute | Project_01/22127022_22127154_22127210_22127413/Source/NTFS/Entry.cpp:167-173 | the loop the queries share finds FirstOfKind |
| NtfsEntry.GetParentDirectory | Project_01/22127022_22127154_22127210_22127413/Source/NTFS/Entry.cpp:165-175 | the parent of the first $FILE_NAME, and 0 when the entry has none |
| NtfsEntry.GetFileName | Project_01/22127022_22127154_22127210_22127413/Source/NTFS/Entry.cpp:177-187 | the name of the first $FILE_NAME, and "Unknown" when the entry has none |
| NtfsEntry.GetStandardInformationFlags | Project_01/22127022_22127154_22127210_22127413/Source/NTFS/Entry.cpp:215-225 | the flags of the first $STANDARD_INFORMATION, and 0 when the entry has none |
| NtfsEntry.Chars | Project_01/22127022_22127154_22127210_22127413/Source/NTFS/Entry.cpp:101-104 | one char per data byte, with the byte's code |
| NtfsEntry.GetTextFileData | Project_01/22127022_22127154_22127210_22127413/Source/NTFS/Entry.cpp:189-213 | the refusal text when any $FILE_NAME lacks ".txt", else the first $DATA's bytes, else "Unknown" |
| NtfsEntry.NonTextHidesData | Project_01/22127022_22127154_22127210_22127413/Source/NTFS/Entry.cpp:191-204 | one name without ".txt" anywhere in the entry hides the data, whatever it holds |
| NtfsEntry.TextShowsFirstData | Project_01/22127022_22127154_22127210_22127413/Source/NTFS/Entry.cpp:205-212 | when every name contains ".txt", the first $DATA is shown one char per byte, and "Unknown" when there is none |
| NtfsTree.DirectoryIsNotFile | Project_01/22127022_22127154_22127210_22127413/Source/NTFS/Entry.h:122-129 | no entry is both a directory and a file |
| NtfsTree.IsDirectory | Project_01/22127022_22127154_22127210_22127413/Source/NTFS/Entry.h:122-125 | true exactly for the flags the flag printer calls "Directory" |
| NtfsTree.IsFile | Project_01/22127022_22127154_22127210_22127413/Source/NTFS/Entry.h:126-129 | true exactly for the flags the flag printer calls "Archive" |
| NtfsTree.FindParentNode | Project_01/22127022_22127154_22127210_22127413/Source/NTFS/Entry.h:132-142 | the first node whose entry has the id, none before it; None exactly when no node has it |
| NtfsTree.Subtrees | Project_01/22127022_22127154_22127210_22127413/Source/NTFS/Entry.h:145-159 | every node built is a child of the given id, earlier in the list than the bound, named by its entry's $FILE_NAME, and linked all the way down |
| NtfsTree.Indices | Project_01/22127022_22127154_22127210_22127413/Source/NTFS/Entry.h:145-159 | the entry positions of the nodes, one per node |
| NtfsTree.SubtreesAreChildren | Project_01/22127022_22127154_22127210_22127413/Source/NTFS/Entry.h:148-157 | with depth left, the helper returns a node for exactly the entries placed under the id, in list order |
| NtfsTree.ConstructEntryTreeHelper | Project_01/22127022_22127154_22127210_22127413/Source/NTFS/Entry.h:145-159 | the recursive helper builds the nodes Subtrees describes |
| NtfsTree.StepInto | Project_01/22127022_22127154_22127210_22127413/Source/NTFS/Entry.h:104 | a path extended by one position is valid exactly when the position names a child of the node reached, and then reaches that child |
| NtfsTree.StepBack | Project_01/22127022_22127154_22127210_22127413/Source/NTFS/Entry.h:106 | dropping the last step of a valid path gives the parent, whose children hold the node |
| NtfsTree.LinkedAlongPath | Project_01/22127022_22127154_22127210_22127413/Source/NTFS/Entry.h:104-113 | every node on a valid path of a linked tree is itself linked |
| NtfsTree.LinkedExtends | Project_01/22127022_22127154_22127210_22127413/Source/NTFS/Entry.h:145-159 | entries appended to the list leave a linked tree linked |
| NtfsVolume.Kept | Project_01/22127022_22127154_22127210_22127413/Source/NTFS/Volume.cpp:76-87 | no more entries are kept than sectors visited |
| NtfsVolume.ReadRecord | Project_01/22127022_22127154_22127210_22127413/Source/NTFS/Volume.cpp:78-86 | a record whose signature is 0 is skipped; any other that holds an entry header is decoded by ReadEntry and kept |
| NtfsVolume.KeptStep | Project_01/22127022_22127154_22127210_22127413/Source/NTFS/Volume.cpp:76-87 | the scan splits into the first visited sector's record and the rest of the region |
| NtfsVolume.VisitedShape | Project_01/22127022_22127154_22127210_22127413/Source/NTFS/Volume.cpp:76 | the loop visits every second sector from the start of the region, each below the end |
| NtfsVolume.MftScanSize | Project_01/22127022_22127154_22127210_22127413/Source/NTFS/Volume.cpp:73-76 | a region below 2^32 is read as 250 two-sector records; one whose end wraps past 2^32 is not read at all |
| NtfsVolume.Volume.constructor | Project_01/22127022_22127154_22127210_22127413/Source/NTFS/Volume.cpp:3-8 | the drive path is kept, 512 bytes per sector and 1024 bytes per entry, no entries and no tree yet |
| NtfsVolume.Volume.ReadBPB | Project_01/22127022_22127154_22127210_22127413/Source/NTFS/Volume.cpp:51-64 | bytes per sector at 0x0B, sectors per cluster at 0x0D and the MFT's start cluster at 0x30 cut to 32 bits; a first sector shorter than the 0x38 bytes these fields need is undefined in the C++; for that case the model chooses to return false and leave the volume as it was |
| NtfsVolume.Volume.Cluster2Sector | Project_01/22127022_22127154_22127210_22127413/Source/NTFS/Volume.cpp:66-69 | cluster times sectors per cluster in uint32, exact when it does not wrap |
| NtfsVolume.Volume.ReadMFT | Project_01/22127022_22127154_22127210_22127413/Source/NTFS/Volume.cpp:71-89 | the entries kept from the region's records are appended in sector order, and a tree built before stays linked |
| NtfsVolume.ScanRecords | Project_01/22127022_22127154_22127210_22127413/Source/NTFS/Volume.cpp:73-87 | the loop collects, in sector order, the entries of exactly the records Kept keeps |
| NtfsVolume.Volume.ConstructEntryTree | Project_01/22127022_22127154_22127210_22127413/Source/NTFS/Volume.cpp:138-148 | entry 5 is the root, its children are the helper's nodes, and the current directory is the root |
| NtfsVolume.Volume.FindEntryNode | Project_01/22127022_22127154_22127210_22127413/Source/NTFS/Volume.cpp:150-180 | the first child of the current directory bearing the name is entered when it is a directory, shown when it is a file, refused otherwise; no child with the name changes nothing |
| NtfsVolume.Volume.BackToParent | Project_01/22127022_22127154_22127210_22127413/Source/NTFS/Volume.cpp:224-236 | at the root nothing moves; elsewhere the current directory becomes the parent, which holds the node left |
| NtfsVolume.FirstNamed | Project_01/22127022_22127154_22127210_22127413/Source/NTFS/Volume.cpp:153-161 | the position of the first child bearing the name, none before it bearing it, or the number of children |
| NtfsVolume.ChildrenAt | Project_01/22127022_22127154_22127210_22127413/Source/NTFS/Volume.cpp:153-155 | the children of the node a path reaches, each referring to an entry of the list |
| NtfsVolume.FindChild | Project_01/22127022_22127154_22127210_22127413/Source/NTFS/Volume.cpp:153-161 | the loop over the children finds FirstNamed |
| NtfsVolume.EnterThenBack | Project_01/22127022_22127154_22127210_22127413/Source/NTFS/Volume.cpp:170 | entering a child and going back returns to where the walk started |
| QuickSort.Half | nachos/nachos-3.4/code/test/quicksort.c:67 | C's division by 2 truncates toward zero: half of a non-negative value is at most half, and -1 halves to 0 |
| QuickSort.Partition | nachos/nachos-3.4/code/test/quicksort.c:67-87 | after the pass around the middle element everything before i is at most the pivot, everything after j at least it, j < i, only a[left..right] moved and the elements are a permutation |
| QuickSort.Swap | nachos/nachos-3.4/code/test/quicksort.c:81-83 | the two elements are exchanged through temp and nothing else changes |
| QuickSort.ScanUp | nachos/nachos-3.4/code/test/quicksort.c:74-75 | the scan stops, inside the range, at the first element from i on that is at least the pivot |
| QuickSort.ScanDown | nachos/nachos-3.4/code/test/quicksort.c:76-77 | the scan stops, never below i - 1, at the first element from j down that is at most the pivot |
| QuickSort.PendingBound | nachos/nachos-3.4/code/test/quicksort.c:13 | at most max(1, n/2) ranges are pending, so the stack of MAX_SIZE ints never overflows |
| QuickSort.LayoutStep | nachos/nachos-3.4/code/test/quicksort.c:89-99 | replacing the popped range by the sides still holding two positions keeps the pending ranges ordered and disjoint |
| QuickSort.WorkStep | nachos/nachos-3.4/code/test/quicksort.c:62-100 | each pass settles boundaries or shrinks the stack, so the loop ends |
| QuickSort.FencedStep | nachos/nachos-3.4/code/test/quicksort.c:64-99 | a partition of the top range keeps every settled boundary a fence, and settles the boundaries it splits at |
| QuickSort.FencedSorted | nachos/nachos-3.4/code/test/quicksort.c:62 | once the stack is empty every boundary is a fence, so the array is sorted |
| QuickSort.Sort | nachos/nachos-3.4/code/test/quicksort.c:58-100 | a[..n] ends sorted and a permutation of what it held, and the rest of the array is untouched |
| QuickSort.SortStep | nachos/nachos-3.4/code/test/quicksort.c:64-99 | one pass pops, partitions and pushes while keeping the stack, the layout and the fences, and lowers the measure |
| QuickSort.PartitionKeepsInvariant | nachos/nachos-3.4/code/test/quicksort.c:67-99 | the facts of one partition keep the layout and the fences and bound the stack |
| QuickSort.PushSides | nachos/nachos-3.4/code/test/quicksort.c:89-99 | the left side is pushed when left < j and the right side when i < right, in that order |
| QuickSort.Push | nachos/nachos-3.4/code/test/quicksort.c:59-60 | two pushes store left and right pair-wise above the stack top |
| QuickSort.Pop | nachos/nachos-3.4/code/test/quicksort.c:64-65 | the two pops take the top range off the stack |
| QuickSort.Reversed | nachos/nachos-3.4/code/test/quicksort.c:103-111 | the reversal puts the element from the mirrored position at each position |
| QuickSort.ReversedPermutes | nachos/nachos-3.4/code/test/quicksort.c:103-111 | reversing only rearranges the elements |
| QuickSort.ReversedSortedNonincreasing | nachos/nachos-3.4/code/test/quicksort.c:103-111 | a sorted array read backwards is in decreasing order |
| QuickSort.Reverse | nachos/nachos-3.4/code/test/quicksort.c:105-110 | swapping a[i] and a[n-1-i] below n/2 reverses a[..n] and leaves the rest |
| QuickSort.SortInOrder | nachos/nachos-3.4/code/test/quicksort.c:58-111 | order 1 gives a[..n] increasing, order 2 decreasing, a permutation of the input either way |
| QuickSort.FirstInRange | nachos/nachos-3.4/code/test/quicksort.c:29-35 | the value accepted is the first one read that lies in the range, and there is none exactly when no value read lies in it |
| QuickSort.ReadInRange | nachos/nachos-3.4/code/test/quicksort.c:29-56 | the do-while loop returns FirstInRange of the values read |
| QuickSort.SortTest | nachos/nachos-3.4/code/test/quicksort.c:25-111 | n is the first value read in [0, 100], the order the first in {1, 2}, and the sorted a[..n] is a permutation in that order |
| QuickSort.SortProject2 | Project_02/22127022_22127154_22127210_22127413/Source/nachos/nachos-3.4/code/test/quicksort.c:26-128 | the same with MAX_SIZE 10 and n accepted in [1, 10] |
| Scan.SignedChar | nachos/nachos-3.4/code/test/scan.c:7 | a byte read into the signed char c_readFile has a value in [-128, 128), and a byte below 128 keeps its value |
| Scan.Accumulated | nachos/nachos-3.4/code/test/scan.c:47-55 | the value of the digits loop, kept in a 32-bit int with wrap-around at every step |
| Scan.AccumulatedWraps | nachos/nachos-3.4/code/test/scan.c:47-55 | the wrapped accumulation is the unbounded value 10*prev + (c - '0') wrapped once at the end |
| Scan.ExactDigits | nachos/nachos-3.4/code/test/scan.c:47-55 | for all-digit text the unbounded value is its decimal value, below 10^length |
| Scan.ScanOfDigits | nachos/nachos-3.4/code/test/scan.c:47-55 | up to nine digits are read as their decimal value, with no wrap-around |
| Scan.BeforeStar | nachos/nachos-3.4/code/test/scan.c:41-58 | the text read is the prefix before the first '*', shorter than the record exactly when the record holds a '*' |
| Scan.BeforeStarAt | nachos/nachos-3.4/code/test/scan.c:41-58 | the loop that stops at a '*' after k chars without one reads the same prefix |
| Scan.ReadScan | nachos/nachos-3.4/code/test/scan.c:41-58 | the read loop yields the wrapped value of the text before the first '*' and whether a '*' was met |
| Scan.Chosen | nachos/nachos-3.4/code/test/scan.c:61-78 | the machine with the least load receives the passenger, ties going to the lower number |
| Scan.ChosenIsLeastLoaded | nachos/nachos-3.4/code/test/scan.c:61-78 | the chosen machine's load is at most each other machine's |
| Scan.LeastLoadedIsChosen | nachos/nachos-3.4/code/test/scan.c:61-78 | any machine loaded strictly less than every lower-numbered one and no more than every higher-numbered one is the one chosen |
| Scan.Step | nachos/nachos-3.4/code/test/scan.c:61-78 | a zero result changes nothing and writes nothing; any other adds the result, wrapping, to the chosen machine's load only, and writes that machine's digit |
| Scan.StepChangesOneLoad | nachos/nachos-3.4/code/test/scan.c:61-78 | a load changes exactly for the machine whose digit is written |
| Scan.Round | nachos/nachos-3.4/code/test/scan.c:26-89 | records are read until one holds a '*', after which the loads are reset to 0 |
| Scan.RoundStopsAtStar | nachos/nachos-3.4/code/test/scan.c:80-86 | the round stops right after the first record with a '*' |
| Scan.RoundWritesDigits | nachos/nachos-3.4/code/test/scan.c:61-78 | only the digits 1, 2 and 3 are written, at most one per record |
| Scan.Scanners.constructor | nachos/nachos-3.4/code/test/scan.c:12 | all three loads start at 0 and nothing has been written |
| Scan.Scanners.OpenResult | nachos/nachos-3.4/code/test/scan.c:19 | result.txt is opened again and written from its first byte on; the loads are kept |
| Scan.Scanners.Assign | nachos/nachos-3.4/code/test/scan.c:61-78 | the loads and the output become those Step describes |
| Scan.Scanners.Record | nachos/nachos-3.4/code/test/scan.c:28-88 | one record is read and assigned, and whether it held a '*' is reported |
| Scan.Scanners.HandleRound | nachos/nachos-3.4/code/test/scan.c:26-89 | the loop reads exactly the records Round describes, ending with its loads and adding its output |

## Left out

- Blocking and waking: a semaphore P on a zero count would suspend the calling thread. The model requires a positive count instead, and splits Join and Exit where they would block. Thread creation (`Thread::Fork`, `StartProcess_2`), `currentThread->Finish`, `FreeSpace` and `interrupt->Halt` are events outside the model; they are concurrency and scheduling, not bookkeeping.
- Memory exhaustion: the model assumes every `new` in the PCB, process table, semaphore table and file system succeeds. The C++ would crash or return NULL when the host heap is exhausted, and the model has no heap limit. Four handlers test the kernel buffer from `User2System` for `NULL`: CreateFile, CreateSemaphore, Down and Up (Project_03 exception.cc:722, :757, :792). In each, the `NULL` branch prints "Not enough memory in system", leaves -1 in r2 and advances the PC. Only CreateFile's branch is modelled, as a flag. In Project3Process.HandleCreateSemaphore, Project3Process.HandleDown and Project3Process.HandleUp that branch is unreachable, because every `new` is assumed to succeed.
- Project3Files.HandleRead, Project3Files.HandleWrite: a negative charcount on a path that reaches `User2System` is not modelled (precondition), because the C++ then allocates a buffer of negative size, which is undefined.
- Project3Files.HandleRead, Project3Files.HandleWrite: on every path that answers -1, the C++ runs `delete buf` on a pointer that was never assigned (exception.cc:533 with :578, and :591 with :638). That is undefined, and it happens before r2 is written. The model does not capture this. It gives those paths a defined result: -1 in r2, the file table unchanged and the PC advanced, which is what the handler evidently intends.
- NtfsVolume.Volume.ReadBPB: Volume.cpp:51-56 reads the three fields from the first sector without checking its length. A sector shorter than 0x38 bytes, such as the empty vector of a failed read, is undefined behaviour there. The model instead returns false and leaves every field unchanged.
- NtfsVolume.Volume.ConstructEntryTree: Volume.cpp:140 takes `mftEntries[5]` without checking that the MFT scan produced six entries. That is undefined behaviour when it did not. The model requires `|mftEntries| > 5` and says nothing about the other case.
- Fat32.Volume.ReadFat: the start byte and the size are kept as uint32 values, but the C++ stores them in a signed `int`. An offset or size of 2^31 bytes or more, which turns negative there, is not modelled.
- BaseSyscalls.CompareNumAndString excludes INT_MIN (precondition), because the C++ negates its argument and negating INT_MIN is undefined behaviour.
- PCB and process-table file names are required to fit the 32-byte buffer, because a longer name overflows it through `strcpy`. Likewise a semaphore name must fit the 50-byte `Sem` buffer.
- Console character and string handlers of both kernels (Halt, ReadChar, PrintChar, ReadString, PrintString, PrintInt) and `PrintPC`, `SynchPrint`: these are console device I/O through `SynchConsole`, which is not part of this model.
- Project_03's float handlers (ReadFloat, PrintFloat, CompareFloat, FreeFloat, FloatToString, `SynchPrint(float)`): these need floating point, which the model does not have. The base kernel's integer `Handle_SC_ReadFloat` is modelled.
- UserMachine.Machine.User2System, UserMachine.Machine.System2User: page faults are not modelled. User2System requires the user bytes it reads to be mapped, and System2User stores to any address, mapped or not. In both kernels, `machine->ReadMem` or `WriteMem` on a bad user address raises a PageFaultException, which the exception handler answers by halting the machine. Every handler that copies a user string or buffer inherits this precondition.
- ProcessTable.PTable.ExitBegin, Project3Process.HandleExitBegin: the exit of an orphan is excluded by the precondition `ParentInTable`. An orphan is a process whose parent has already exited and been removed. For such a process, `ptable.cc` line 200 calls `DecNumWait` through the parent's NULL slot, which crashes the C++.
- Fat32.Volume.FileText, Fat32.Volume.ReadContent: output past the first 512-byte sector is not modelled. The C++ reads one sector and prints DIR_FileSize bytes from it, which reads past its buffer for a file larger than the sector; the model prints the sector's bytes only. The unused `ReadSize` suggests the whole file was meant to be read.
- Scan.Scanners.OpenResult: result.txt is opened without truncation, so bytes of an earlier, longer result.txt past what the round writes stay in the file. The model's `result` holds only what is written from the first byte on.
- Host file internals behind `OpenFile` (Read, Write, Seek, Length, `OpenForWrite`, `OpenForReadWrite`): their results are parameters.
- Messages printed on the console by every handler and by the explorers: output text, not state.
- FAT32 `ReadLongName` (the long-file-name "~N" lookup): its backward walk with unsigned arithmetic is not modelled. The names it yields enter as a parameter (`LongNames`).
- FAT32 `ReadSector`/`ReadFat`/`ReadRdet`/`ReadContent` device I/O through `CreateFileW`/`ReadFile`: their results are parameters. `PrintSector` and `PrintSectorTable` are output only and are left out.
- NTFS `PrintBytes`, `PrintAttribute`, `PrintEntry`, `PrintEntryTree`, `PrintMFT`, `PrintCurrentRoot` and the `mft.csv` file written by `ExtractMFT`: output only.
- NTFS `PrintMFTEntryData`: it prints the data of the hard-coded entry 33, which is output only.
- NTFS `Run`'s menu loop: only its two navigation steps are modelled, as `NtfsVolume.Volume.FindEntryNode` and `NtfsVolume.Volume.BackToParent`. The loop itself is interactive UI.
- NTFS `ReadMFT` on a failed sector read: `ReadSector` then returns a one-byte vector, and `ReadMFT` reads four bytes from it, which is undefined. The model skips a record shorter than the entry header.
- NtfsEntry.ReadEntry walks at most `maxAttributes` attributes, because the source loop has no bound and does not stop on an attribute of size 0.
- NtfsTree.ConstructEntryTreeHelper recurses at most `depth` levels, because the source recursion has no bound and does not stop on a cycle of parent references.
- Fat32.Volume.GetRdetCluster follows at most `maxSteps` links, because the source loop stops only at the end-of-chain mark.
- Console colours, `Display*`, `Options`, `ClearScreen`, `Pause`, wide and UTF-8 string conversions, `GetAllDrives` and `GetLastErrorAsString`: terminal UI and thin wrappers over Win32 calls.
- Console `ReadInt(msg)`: it returns no value on its success path, which is undefined in C++, so no behaviour can be stated for it. `ReadInt(lower, upper)` is modelled.
- Console.ReadIntInRange: `stoi` throwing `out_of_range` is not caught by the source, so the model ends such a run as Aborted rather than retrying.
- The `System.cpp` menus of the FAT32 explorer: interactive UI.
- QuickSort: reading the elements, printing them and writing the output file (Open, Write, Close, and the Project_02 CreateFile retry) are console and file I/O. The input loops take the values typed as a sequence and give None when it runs out.
- Scan: the semaphores that pace `scan.c` against the other processes, and `Open` failures, are left out. The records read from `scan.txt` are a parameter, and the digits written to `result.txt` are kept in the `result` field of `Scan.Scanners`.
- Other user programs (passenger, scheduler, the I/O tests, ascii, help, mergesort): syscall scripts and I/O only.

## Findings

| source | as written | input that shows it | evidently intended | confidence | as-written member | corrected member |
|---|---|---|---|---|---|---|
| Project_03/22127022_22127154_22127210_22127413/Source/nachos/nachos-3.4/code/userprog/exception.cc:594 | Write rejects `id < 0 \|\| id > MAX_FILE`, so id MAX_FILE passes and indexes `file_table[15]`, one past the 15-slot table | Write with id 15 | `id >= MAX_FILE` rejected, as Read and Close do | high, not executed | Project3Files.WriteGuardAdmitsOnePastEnd | Project3Files.WriteIdCheck |
| Project_03/22127022_22127154_22127210_22127413/Source/nachos/nachos-3.4/code/userprog/exception.cc:623-631 | the STDOUT branch of Write returns `i - 1` for i bytes echoed | writing "" returns -1, the error code; writing "hi" returns 1 | the number of bytes written, i | medium, not executed | Project3Files.StdoutCountAsWrittenMiscounts | Project3Files.StdoutCount |
| Project_03/22127022_22127154_22127210_22127413/Source/nachos/nachos-3.4/code/userprog/exception.cc:822-848 | Seek prints its error messages but does not return, so it goes on to seek whatever slot id names | Seek to position 0 on slot 0, the console input, moves it and returns 0 | return -1 for an out-of-range id, an empty slot and the console slots | high, not executed | Project3Files.SeekAsWrittenMovesConsole | Project3Files.SeekOutcome |
