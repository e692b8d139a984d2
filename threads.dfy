// What the process bookkeeping sees of a Nachos Thread object: the name it
// was created with and the processID the kernel assigned to it. Forking,
// scheduling and address spaces are not part of this model.
module Threads {
  datatype Thread = Thread(name: string, processID: int)

  /** Capacity of a PCB's filename buffer, NUL included (pcb.h). */
  const FILENAME_BUFFER := 32

  /** A name that strcpy can copy into the filename buffer with its NUL. */
  predicate FitsFileName(name: string)
  {
    |name| < FILENAME_BUFFER
  }
}
