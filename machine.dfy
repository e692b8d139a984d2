// The part of the simulated MIPS machine that the system-call handlers touch:
// the register file and user memory, with the PC rotation and the two byte
// copies between user memory and kernel buffers (IncreasePC, User2System and
// System2User, identical in both exception.cc files). Register numbers are
// those of stock Nachos machine.h, which is not part of this model. User
// memory is a map from virtual address to byte; only mapped addresses are
// read, and the page fault of a bad user address is not modelled.
module UserMachine {

  /** One byte of C memory. */
  type CByte = c: char | c as int < 256

  const NumTotalRegs := 40
  const PCReg := 34
  const NextPCReg := 35
  const PrevPCReg := 36

  const NUL: CByte := 0 as char

  // ---------------------------------------------------------------------
  // Specification functions
  // ---------------------------------------------------------------------

  /** The register file after one IncreasePC. */
  function PCAdvanced(regs: seq<int>): (r: seq<int>)
    requires |regs| == NumTotalRegs
    ensures |r| == NumTotalRegs
    ensures r[PrevPCReg] == regs[PCReg] && r[PCReg] == regs[NextPCReg]
    ensures forall i :: 0 <= i < NumTotalRegs && i != PrevPCReg && i != PCReg && i != NextPCReg ==>
      r[i] == regs[i]
    // straight-line execution (NextPC = PC + 4) is kept, one instruction on
    ensures regs[NextPCReg] == regs[PCReg] + 4 ==>
      r[PCReg] == regs[PCReg] + 4 && r[NextPCReg] == r[PCReg] + 4
  {
    regs[PrevPCReg := regs[PCReg]][PCReg := regs[NextPCReg]][NextPCReg := regs[NextPCReg] + 4]
  }

  /** n zero bytes. */
  function Zeros(n: nat): (r: seq<CByte>)
    ensures |r| == n && forall i :: 0 <= i < n ==> r[i] == NUL
  {
    seq(n, _ => NUL)
  }

  /**
   * The addresses User2System reads from v with a limit of n are mapped:
   * up to n bytes, stopping after the first NUL.
   */
  predicate Readable(mem: map<int, CByte>, v: int, n: nat)
    decreases n
  {
    n == 0 || (v in mem && (mem[v] == NUL || Readable(mem, v + 1, n - 1)))
  }

  /** The bytes User2System reads: up to n, ending at and including the first NUL. */
  function UserString(mem: map<int, CByte>, v: int, n: nat): (r: seq<CByte>)
    requires Readable(mem, v, n)
    decreases n
    ensures |r| <= n
    ensures forall i :: 0 <= i < |r| - 1 ==> r[i] != NUL
    ensures |r| < n ==> |r| > 0 && r[|r| - 1] == NUL
  {
    if n == 0 then []
    else if mem[v] == NUL then [NUL]
    else [mem[v]] + UserString(mem, v + 1, n - 1)
  }

  /** Byte i of the user string is the byte at address v + i. */
  lemma {:induction false} UserStringAt(mem: map<int, CByte>, v: int, n: nat, i: int)
    requires Readable(mem, v, n) && 0 <= i < |UserString(mem, v, n)|
    ensures v + i in mem && UserString(mem, v, n)[i] == mem[v + i]
    decreases n
  {
    if i > 0 {
      UserStringAt(mem, v + 1, n - 1, i - 1);
    }
  }

  /** The index of the first NUL of s, or |s| when there is none. */
  function NulIndex(s: seq<CByte>): (k: nat)
    ensures k <= |s|
    ensures k < |s| ==> s[k] == NUL
    ensures forall i :: 0 <= i < k ==> s[i] != NUL
  {
    if s == [] then 0
    else if s[0] == NUL then 0
    else 1 + NulIndex(s[1..])
  }

  /** The C string held by a buffer: its bytes before the first NUL. */
  function CStr(buf: seq<CByte>): (s: seq<CByte>)
    ensures s == buf[..NulIndex(buf)]
  {
    buf[..NulIndex(buf)]
  }

  /** The kernel buffer User2System(v, limit) returns: limit + 1 bytes. */
  function KernelBuffer(mem: map<int, CByte>, v: int, limit: nat): (buf: seq<CByte>)
    requires Readable(mem, v, limit)
    ensures |buf| == limit + 1 && buf[limit] == NUL
  {
    var u := UserString(mem, v, limit);
    u + Zeros(limit + 1 - |u|)
  }

  /** The C string in the kernel buffer User2System(v, limit) returns. */
  function KernelString(mem: map<int, CByte>, v: int, limit: nat): (s: seq<CByte>)
    requires Readable(mem, v, limit)
    ensures |s| <= limit && forall i :: 0 <= i < |s| ==> s[i] != NUL
    ensures var u := UserString(mem, v, limit);
      s == if |u| > 0 && u[|u| - 1] == NUL then u[..|u| - 1] else u
  {
    KernelBufferString(mem, v, limit);
    var u := UserString(mem, v, limit);
    CStr(u + Zeros(limit + 1 - |u|))
  }

  /** How many bytes System2User stores, or -1 for a negative length. */
  function CopyOutCount(buf: seq<CByte>, len: int): (k: int)
    requires len <= |buf|
    ensures len < 0 ==> k == -1
    ensures len == 0 ==> k == 0
    ensures len > 0 ==> 1 <= k <= len
    ensures len > 0 ==> (forall i :: 0 <= i < k - 1 ==> buf[i] != NUL)
    ensures len > 0 && k < len ==> buf[k - 1] == NUL
  {
    if len < 0 then -1
    else if len == 0 then 0
    else if NulIndex(buf[..len]) < len then NulIndex(buf[..len]) + 1
    else len
  }

  /** User memory after System2User(v, len, buf). */
  function CopiedOut(mem: map<int, CByte>, v: int, len: int, buf: seq<CByte>): map<int, CByte>
    requires len <= |buf|
  {
    var k := CopyOutCount(buf, len);
    if k <= 0 then mem else Stored(mem, v, buf[..k])
  }

  /** Memory after storing bytes at v, v+1, ... */
  function Stored(mem: map<int, CByte>, v: int, bytes: seq<CByte>): map<int, CByte>
    decreases |bytes|
  {
    if bytes == [] then mem else Stored(mem[v := bytes[0]], v + 1, bytes[1..])
  }

  // ---------------------------------------------------------------------
  // Lemmas
  // ---------------------------------------------------------------------

  /** Stored writes exactly the addresses v .. v+|bytes|-1 and keeps the rest. */
  lemma {:induction false} StoredAt(mem: map<int, CByte>, v: int, bytes: seq<CByte>, a: int)
    ensures a in Stored(mem, v, bytes) <==> a in mem || v <= a < v + |bytes|
    ensures v <= a < v + |bytes| ==> Stored(mem, v, bytes)[a] == bytes[a - v]
    ensures !(v <= a < v + |bytes|) && a in mem ==> Stored(mem, v, bytes)[a] == mem[a]
    decreases |bytes|
  {
    if bytes != [] {
      StoredAt(mem[v := bytes[0]], v + 1, bytes[1..], a);
    }
  }

  /** Storing one more byte at the end. */
  lemma {:induction false} StoredSnoc(mem: map<int, CByte>, v: int, bytes: seq<CByte>, b: CByte)
    ensures Stored(mem, v, bytes + [b]) == Stored(mem, v, bytes)[v + |bytes| := b]
    decreases |bytes|
  {
    if bytes == [] {
      assert [b][1..] == [];
    } else {
      assert (bytes + [b])[1..] == bytes[1..] + [b];
      StoredSnoc(mem[v := bytes[0]], v + 1, bytes[1..], b);
    }
  }

  /**
   * The kernel buffer of User2System is NUL-terminated, and the C string in it
   * is the user string without its NUL, at most limit bytes long.
   */
  lemma KernelBufferString(mem: map<int, CByte>, v: int, limit: nat)
    requires Readable(mem, v, limit)
    ensures var u := UserString(mem, v, limit);
      var buf := u + Zeros(limit + 1 - |u|);
      && buf[limit] == NUL
      && CStr(buf) == (if |u| > 0 && u[|u| - 1] == NUL then u[..|u| - 1] else u)
      && |CStr(buf)| <= limit
  {
    var u := UserString(mem, v, limit);
    var buf := u + Zeros(limit + 1 - |u|);
    var k := if |u| > 0 && u[|u| - 1] == NUL then |u| - 1 else |u|;
    assert buf[k] == NUL;
    assert forall i :: 0 <= i < k ==> buf[i] != NUL;
    NulIndexIs(buf, k);
  }

  lemma NulIndexIs(s: seq<CByte>, k: nat)
    requires k < |s| && s[k] == NUL
    requires forall i :: 0 <= i < k ==> s[i] != NUL
    ensures NulIndex(s) == k
  {
  }

  // ---------------------------------------------------------------------
  // The machine
  // ---------------------------------------------------------------------

  class Machine {
    var registers: seq<int>
    var mem: map<int, CByte>

    predicate Valid()
      reads this
    {
      |registers| == NumTotalRegs
    }

    constructor (regs: seq<int>, memory: map<int, CByte>)
      requires |regs| == NumTotalRegs
      ensures Valid() && registers == regs && mem == memory
    {
      registers := regs;
      mem := memory;
    }

    method ReadRegister(r: int) returns (value: int)
      requires Valid() && 0 <= r < NumTotalRegs
      ensures value == registers[r]
    {
      value := registers[r];
    }

    method WriteRegister(r: int, value: int)
      requires Valid() && 0 <= r < NumTotalRegs
      modifies this`registers
      ensures Valid() && registers == old(registers)[r := value]
    {
      registers := registers[r := value];
    }

    /** PrevPC := PC, PC := NextPC, NextPC := NextPC + 4. */
    method IncreasePC()
      requires Valid()
      modifies this`registers
      ensures Valid() && registers == PCAdvanced(old(registers))
    {
      var counter := ReadRegister(PCReg);
      WriteRegister(PrevPCReg, counter);
      counter := ReadRegister(NextPCReg);
      WriteRegister(PCReg, counter);
      WriteRegister(NextPCReg, counter + 4);
    }

    /**
     * A fresh kernel buffer of limit+1 bytes holding the user string at
     * virtAddr. A limit below -1 makes the C++ allocation fail (not modelled).
     */
    method User2System(virtAddr: int, limit: int) returns (buf: seq<CByte>)
      requires limit >= -1
      requires limit >= 0 ==> Readable(mem, virtAddr, limit)
      ensures limit == -1 ==> buf == []
      ensures limit >= 0 ==> buf == KernelBuffer(mem, virtAddr, limit)
    {
      buf := Zeros(limit + 1);
      if limit < 0 {
        return;
      }
      ghost var u := UserString(mem, virtAddr, limit);
      var i := 0;
      while i < limit
        invariant 0 <= i <= limit && i <= |u|
        invariant |buf| == limit + 1
        invariant forall k :: 0 <= k < i ==> buf[k] == u[k] && u[k] != NUL
        invariant forall k :: i <= k <= limit ==> buf[k] == NUL
      {
        UserStringAt(mem, virtAddr, limit, i);
        var oneChar := mem[virtAddr + i];
        buf := buf[i := oneChar];
        if oneChar == NUL {
          assert |u| == i + 1;
          assert buf == u + Zeros(limit + 1 - |u|);
          return;
        }
        i := i + 1;
      }
      assert buf == u + Zeros(limit + 1 - |u|);
    }

    /**
     * Stores buffer bytes at virtAddr until len bytes are stored or a NUL
     * has been stored; returns how many (0 for len 0, -1 for len < 0).
     * The buffer must hold at least len bytes.
     */
    method System2User(virtAddr: int, len: int, buffer: seq<CByte>) returns (r: int)
      requires len <= |buffer|
      modifies this`mem
      ensures r == CopyOutCount(buffer, len)
      ensures mem == CopiedOut(old(mem), virtAddr, len, buffer)
    {
      if len < 0 {
        return -1;
      }
      if len == 0 {
        return 0;
      }
      var i := 0;
      var oneChar := buffer[i];
      StoredSnoc(mem, virtAddr, buffer[..0], oneChar);
      assert buffer[..1] == buffer[..0] + [oneChar];
      mem := mem[virtAddr + i := oneChar];
      i := i + 1;
      while i < len && oneChar != NUL
        invariant 1 <= i <= len
        invariant oneChar == buffer[i - 1]
        invariant forall k :: 0 <= k < i - 1 ==> buffer[k] != NUL
        invariant mem == Stored(old(mem), virtAddr, buffer[..i])
      {
        oneChar := buffer[i];
        StoredSnoc(old(mem), virtAddr, buffer[..i], oneChar);
        assert buffer[..i + 1] == buffer[..i] + [oneChar];
        mem := mem[virtAddr + i := oneChar];
        i := i + 1;
      }
      r := i;
      if oneChar == NUL {
        NulIndexIs(buffer[..len], i - 1);
      } else {
        assert i == len;
        assert forall k :: 0 <= k < len ==> buffer[..len][k] != NUL;
      }
    }
  }
}
