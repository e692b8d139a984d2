// The named semaphore table (userprog/stable.h and stable.cc): MAX_SEMAPHORE
// slots tracked by a bitmap, each marked slot holding a Sem, a name with a
// counting semaphore. The counter is an integer: Signal adds 1 and Wait needs
// a positive count (the blocking of P is not modelled).
module SemaphoreTable {
  import opened Wrappers
  import opened Bitmap

  const MAX_SEMAPHORE := 10
  /** Capacity of a Sem's name buffer, NUL included. */
  const SEM_NAME_BUFFER := 50

  /** The lowest index holding Some(name), or -1 when no entry has that name. */
  function FirstNamed(names: seq<Option<string>>, name: string): (r: int)
    ensures -1 <= r < |names|
    ensures r == -1 <==> forall i :: 0 <= i < |names| ==> names[i] != Some(name)
    ensures r != -1 ==> names[r] == Some(name) && forall i :: 0 <= i < r ==> names[i] != Some(name)
  {
    if names == [] then -1
    else if names[0] == Some(name) then 0
    else
      var k := FirstNamed(names[1..], name);
      if k == -1 then -1 else k + 1
  }

  /** The counters once delta is added to the first semaphore called name, if there is one. */
  function Adjusted(names: seq<Option<string>>, counts: seq<int>, name: string, delta: int): (r: seq<int>)
    requires |counts| == |names|
    ensures |r| == |counts|
  {
    var k := FirstNamed(names, name);
    if k == -1 then counts else counts[k := counts[k] + delta]
  }

  class Sem {
    const name: string
    var count: int

    /** strcpy into the 50-byte name buffer needs room for the NUL. */
    constructor (semName: string, initValue: int)
      requires |semName| < SEM_NAME_BUFFER
      ensures name == semName && count == initValue
    {
      name := semName;
      count := initValue;
    }

    method Wait()
      requires count > 0
      modifies this`count
      ensures count == old(count) - 1
    {
      count := count - 1;
    }

    method Signal()
      modifies this`count
      ensures count == old(count) + 1
    {
      count := count + 1;
    }

    method GetName() returns (r: string)
      ensures r == name
    {
      r := name;
    }
  }

  class STable {
    const bm: BitMap
    const semTab: array<Sem?>

    ghost function Sems(): set<Sem>
      reads this, semTab
    {
      set i | 0 <= i < semTab.Length && semTab[i] != null :: semTab[i]
    }

    /** A slot is marked exactly when it holds a Sem; no Sem is in two slots. */
    ghost predicate Valid()
      reads this, bm, bm.bits, semTab
    {
      && bm.bits.Length == MAX_SEMAPHORE
      && semTab.Length == MAX_SEMAPHORE
      && (forall i :: 0 <= i < MAX_SEMAPHORE ==> (bm.bits[i] <==> semTab[i] != null))
      && (forall i, j :: 0 <= i < j < MAX_SEMAPHORE && semTab[i] != null ==> semTab[i] != semTab[j])
    }

    /** The name held by each slot, None for an empty slot. */
    ghost function Names(): (r: seq<Option<string>>)
      reads this, semTab
      requires semTab.Length == MAX_SEMAPHORE
      ensures |r| == MAX_SEMAPHORE
      ensures forall i :: 0 <= i < MAX_SEMAPHORE ==>
        r[i] == if semTab[i] == null then None else Some(semTab[i].name)
    {
      seq(MAX_SEMAPHORE, i requires 0 <= i < MAX_SEMAPHORE reads this, semTab =>
        if semTab[i] == null then None else Some(semTab[i].name))
    }

    /** The counter of each slot, 0 for an empty slot. */
    ghost function Counts(): (r: seq<int>)
      reads this, semTab, Sems()
      requires semTab.Length == MAX_SEMAPHORE
      ensures |r| == MAX_SEMAPHORE
      ensures forall i :: 0 <= i < MAX_SEMAPHORE ==>
        r[i] == if semTab[i] == null then 0 else semTab[i].count
    {
      seq(MAX_SEMAPHORE, i requires 0 <= i < MAX_SEMAPHORE reads this, semTab, Sems() =>
        if semTab[i] == null then 0 else semTab[i].count)
    }

    constructor ()
      ensures Valid() && fresh(bm) && fresh(bm.bits) && fresh(semTab)
      ensures Names() == seq(MAX_SEMAPHORE, _ => None)
    {
      bm := new BitMap(MAX_SEMAPHORE);
      semTab := new Sem?[MAX_SEMAPHORE](_ => null);
    }

    method FindFreeSlot() returns (r: int)
      modifies bm.bits
      ensures r == FirstClear(old(bm.bits[..]))
      ensures r == -1 ==> bm.bits[..] == old(bm.bits[..])
      ensures r != -1 ==> bm.bits[..] == old(bm.bits[..])[r := true]
    {
      r := bm.Find();
    }

    /** The Sem of the lowest marked slot with that name, or null. */
    method Get(name: string) returns (s: Sem?)
      requires Valid()
      ensures var k := FirstNamed(Names(), name);
        s == if k == -1 then null else semTab[k]
    {
      ghost var names := Names();
      var i := 0;
      while i < MAX_SEMAPHORE
        invariant 0 <= i <= MAX_SEMAPHORE
        invariant forall k :: 0 <= k < i ==> names[k] != Some(name)
      {
        var marked := bm.Test(i);
        if marked && name == semTab[i].name {
          s := semTab[i];
          return;
        }
        i := i + 1;
      }
      s := null;
    }

    /**
     * Registers a new semaphore: -1 when a marked slot already has the
     * name or no slot is free, else 0 with the lowest free slot filled.
     */
    method Create(name: string, init: int) returns (r: int)
      requires Valid()
      requires |name| < SEM_NAME_BUFFER
      modifies bm.bits, semTab
      ensures Valid()
      ensures r == 0 || r == -1
      ensures FirstNamed(old(Names()), name) != -1 || FirstClear(old(bm.bits[..])) == -1 ==>
        r == -1 && bm.bits[..] == old(bm.bits[..]) && semTab[..] == old(semTab[..])
      ensures FirstNamed(old(Names()), name) == -1 && FirstClear(old(bm.bits[..])) != -1 ==>
        var k := FirstClear(old(bm.bits[..]));
        && r == 0
        && bm.bits[..] == old(bm.bits[..])[k := true]
        && semTab[k] != null && fresh(semTab[k])
        && semTab[..] == old(semTab[..])[k := semTab[k]]
        && semTab[k].name == name && semTab[k].count == init
    {
      ghost var names := Names();
      var i := 0;
      while i < MAX_SEMAPHORE
        invariant 0 <= i <= MAX_SEMAPHORE
        invariant bm.bits[..] == old(bm.bits[..]) && semTab[..] == old(semTab[..])
        invariant forall k :: 0 <= k < i ==> names[k] != Some(name)
      {
        var marked := bm.Test(i);
        if marked && name == semTab[i].name {
          return -1;
        }
        i := i + 1;
      }
      var id := FindFreeSlot();
      if id < 0 {
        return -1;
      }
      semTab[id] := new Sem(name, init);
      r := 0;
    }

    /** The Sem in slot k is in no other slot. */
    lemma OnlySlot(k: int)
      requires Valid() && 0 <= k < MAX_SEMAPHORE && semTab[k] != null
      ensures forall i :: 0 <= i < MAX_SEMAPHORE && i != k ==> semTab[i] != semTab[k]
    {
      forall i | 0 <= i < MAX_SEMAPHORE && i != k
        ensures semTab[i] != semTab[k]
      {
        if i < k {
          assert semTab[i] != null ==> semTab[i] != semTab[k];
        } else {
          assert semTab[k] != semTab[i];
        }
      }
    }

    /** Down (the dispatcher's Wait): P on the named semaphore. */
    method Down(name: string) returns (r: int)
      requires Valid()
      requires FirstNamed(Names(), name) != -1 ==> Counts()[FirstNamed(Names(), name)] > 0
      modifies Sems()
      ensures Valid() && Names() == old(Names())
      ensures r == 0 || r == -1
      ensures var k := FirstNamed(old(Names()), name);
        && (r == -1 <==> k == -1)
        && Counts() == Adjusted(old(Names()), old(Counts()), name, -1)
    {
      var s := Get(name);
      assert unchanged(this, semTab) && unchanged(Sems());
      if s == null {
        return -1;
      }
      ghost var k := FirstNamed(Names(), name);
      ghost var counts := Counts();
      assert semTab[k] == s;
      assert s in Sems();
      OnlySlot(k);
      label Before:
      s.Wait();
      assert unchanged@Before(this, semTab, bm, bm.bits);
      assert Counts() == counts[k := counts[k] - 1];
      assert Adjusted(old(Names()), old(Counts()), name, -1) == counts[k := counts[k] - 1];
      r := 0;
    }

    /** Up (the dispatcher's Signal): V on the named semaphore. */
    method Up(name: string) returns (r: int)
      requires Valid()
      modifies Sems()
      ensures Valid() && Names() == old(Names())
      ensures r == 0 || r == -1
      ensures var k := FirstNamed(old(Names()), name);
        && (r == -1 <==> k == -1)
        && Counts() == Adjusted(old(Names()), old(Counts()), name, 1)
    {
      var s := Get(name);
      assert unchanged(this, semTab) && unchanged(Sems());
      if s == null {
        return -1;
      }
      ghost var k := FirstNamed(Names(), name);
      ghost var counts := Counts();
      assert semTab[k] == s;
      assert s in Sems();
      OnlySlot(k);
      label Before:
      s.Signal();
      assert unchanged@Before(this, semTab, bm, bm.bits);
      assert Counts() == counts[k := counts[k] + 1];
      assert Adjusted(old(Names()), old(Counts()), name, 1) == counts[k := counts[k] + 1];
      r := 0;
    }
  }
}
