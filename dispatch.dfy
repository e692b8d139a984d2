// The two ExceptionHandler entry points: which handler a trap reaches.
// The system call number is read from register 2; the Syscall values
// below are numbered as in Project_02's syscall.h. The Project_03
// dispatcher also knows CreateSemaphore, Down, Up and Seek, whose numbers
// come from a syscall.h that is not part of this model, so that dispatcher
// takes the already named call.

module Dispatch {
  import opened Wrappers

  /** The exception kinds of the Nachos machine. */
  datatype ExceptionType =
    | NoException
    | SyscallException
    | PageFaultException
    | ReadOnlyException
    | BusErrorException
    | AddressErrorException
    | OverflowException
    | IllegalInstrException
    | NumExceptionTypes

  datatype Syscall =
    | Halt | Exit | Exec | Join | CreateFile | Open | Read | Write | Close | Fork | Yield
    | ReadInt | PrintInt | ReadFloat | PrintFloat | ReadChar | PrintChar
    | ReadString | PrintString | CompareFloat | FreeFloat | FloatToString
    | CreateSemaphore | Down | Up | Seek

  /** What the handler does with a trap. */
  datatype Action =
    | RunHandler(call: Syscall)   // return Handle_SC_<call>()
    | HaltMachine                 // interrupt->Halt()
    | ReturnToUser                // return without doing anything

  /** The calls that have a number in the numbered header. */
  predicate Numbered(s: Syscall) {
    !(s.CreateSemaphore? || s.Down? || s.Up? || s.Seek?)
  }

  function Code(s: Syscall): (c: int)
    requires Numbered(s)
    ensures 0 <= c <= 10 || 41 <= c <= 51
  {
    match s
    case Halt => 0
    case Exit => 1
    case Exec => 2
    case Join => 3
    case CreateFile => 4
    case Open => 5
    case Read => 6
    case Write => 7
    case Close => 8
    case Fork => 9
    case Yield => 10
    case ReadInt => 41
    case PrintInt => 42
    case ReadFloat => 43
    case PrintFloat => 44
    case ReadChar => 45
    case PrintChar => 46
    case ReadString => 47
    case PrintString => 48
    case CompareFloat => 49
    case FreeFloat => 50
    case FloatToString => 51
  }

  /** The call a register value names, if any. */
  function Decode(code: int): (r: Option<Syscall>)
    ensures r.Some? <==> (0 <= code <= 10 || 41 <= code <= 51)
    ensures r.Some? ==> Numbered(r.value)
  {
    match code
    case 0 => Some(Halt)
    case 1 => Some(Exit)
    case 2 => Some(Exec)
    case 3 => Some(Join)
    case 4 => Some(CreateFile)
    case 5 => Some(Open)
    case 6 => Some(Read)
    case 7 => Some(Write)
    case 8 => Some(Close)
    case 9 => Some(Fork)
    case 10 => Some(Yield)
    case 41 => Some(ReadInt)
    case 42 => Some(PrintInt)
    case 43 => Some(ReadFloat)
    case 44 => Some(PrintFloat)
    case 45 => Some(ReadChar)
    case 46 => Some(PrintChar)
    case 47 => Some(ReadString)
    case 48 => Some(PrintString)
    case 49 => Some(CompareFloat)
    case 50 => Some(FreeFloat)
    case 51 => Some(FloatToString)
    case _ => None
  }

  /** Decoding a call's number gives the call back ... */
  lemma DecodeCode(s: Syscall)
    requires Numbered(s)
    ensures Decode(Code(s)) == Some(s)
  {
  }

  /** ... and a number that decodes is that call's number, so no two calls share one. */
  lemma CodeDecode(code: int)
    requires Decode(code).Some?
    ensures Code(Decode(code).value) == code
  {
  }

  /** The calls the base dispatcher has a case for. */
  predicate BaseHandled(s: Syscall) {
    s.Halt? || s.ReadInt? || s.PrintInt? || s.ReadFloat? || s.PrintFloat? || s.ReadChar?
    || s.PrintChar? || s.ReadString? || s.PrintString? || s.CreateFile?
  }

  /** The calls the Project_03 dispatcher has a case for: all but Fork and Yield. */
  predicate Project3Handled(s: Syscall) {
    !(s.Fork? || s.Yield?)
  }

  /**
   * The base ExceptionHandler. A system call with a case runs its handler;
   * an unknown number halts; NoException returns; every other exception
   * halts.
   */
  function BaseDispatch(which: ExceptionType, code: int): (a: Action)
    ensures a.ReturnToUser? <==> which == NoException
    ensures a.RunHandler? <==>
      which == SyscallException && Decode(code).Some? && BaseHandled(Decode(code).value)
    ensures a.RunHandler? ==> a.call == Decode(code).value && Code(a.call) == code
  {
    match which
    case SyscallException =>
      var call := Decode(code);
      if call.Some? && BaseHandled(call.value) then RunHandler(call.value) else HaltMachine
    case NoException => ReturnToUser
    case _ => HaltMachine
  }

  /** The Project_03 ExceptionHandler, over the call the number names (None for no call). */
  function Project3Dispatch(which: ExceptionType, call: Option<Syscall>): (a: Action)
    ensures a.ReturnToUser? <==> which == NoException
    ensures a.RunHandler? <==>
      which == SyscallException && call.Some? && Project3Handled(call.value)
    ensures a.RunHandler? ==> Some(a.call) == call
  {
    match which
    case SyscallException =>
      if call.Some? && Project3Handled(call.value) then RunHandler(call.value) else HaltMachine
    case NoException => ReturnToUser
    case _ => HaltMachine
  }

  /** Every call the base kernel handles, Project_03 hands to the same handler. */
  lemma Project3ExtendsBase(code: int)
    requires BaseDispatch(SyscallException, code).RunHandler?
    ensures Project3Dispatch(SyscallException, Decode(code)) == BaseDispatch(SyscallException, code)
  {
  }

  /** Fork and Yield are numbered but have no handler in either kernel: they halt the machine. */
  lemma ForkAndYieldHalt()
    ensures BaseDispatch(SyscallException, Code(Fork)) == HaltMachine
    ensures Project3Dispatch(SyscallException, Some(Fork)) == HaltMachine
    ensures BaseDispatch(SyscallException, Code(Yield)) == HaltMachine
    ensures Project3Dispatch(SyscallException, Some(Yield)) == HaltMachine
  {
  }
}
