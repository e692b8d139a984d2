// The NTFS volume of the explorer (Source/NTFS/Volume.cpp): the BIOS parameter block, the
// scan of the MFT records, the directory tree rooted at MFT entry 5, and the navigation
// that moves the current directory down to a child and back to its parent.

module NtfsVolume {
  import opened Bytes
  import opened Wrappers
  import opened NtfsUtility
  import opened NtfsEntry
  import opened NtfsTree

  /** What ReadSector returns for (first sector, sector count): the bytes read, or the
      one-byte or empty vector it returns when the device cannot be read. */
  type Sectors = (nat, nat) -> seq<byte>

  /** The MFT region ReadMFT scans: 500 sectors from its start. */
  const MFT_SCAN := 500
  const ROOT_ENTRY := 5
  const BPB_SIZE := 0x38

  /** The outcome of FindEntryNode. */
  datatype Outcome = NotFound | ChangedDirectory | ShowText(text: string) | NotReadable

  /** The sectors ReadMFT visits: `from`, `from + 2`, ... while below `end`. */
  function Visited(from: nat, end: nat): seq<nat>
    decreases end - from
  {
    if from >= end then [] else [from] + Visited(from + 2, end)
  }

  /** The two-sector records ReadEntry is given: a record is skipped when its first four
      bytes are zero, or when the read returned too few bytes to hold an entry header. */
  predicate Usable(record: seq<byte>) {
    |record| >= ENTRY_HEADER_SIZE && Field(record, 0, 4) != 0
  }

  /** The entries ReadMFT appends for the visited sectors, in sector order. */
  function Kept(sectors: Sectors, visited: seq<nat>, maxAttributes: nat): (r: seq<Entry>)
    ensures |r| <= |visited|
    decreases |visited|
  {
    if visited == [] then []
    else
      var record := sectors(visited[0], 2);
      (if Usable(record) then [EntryOf(record, maxAttributes).0] else [])
      + Kept(sectors, visited[1..], maxAttributes)
  }

  /** The body of ReadMFT's loop for one record: the entry it pushes, if any. */
  method ReadRecord(record: seq<byte>, maxAttributes: nat) returns (kept: seq<Entry>)
    ensures kept == if Usable(record) then [EntryOf(record, maxAttributes).0] else []
  {
    kept := [];
    if |record| >= 4 {
      var signature := Convert2LE(record, 0, 4);
      if signature != 0 && |record| >= ENTRY_HEADER_SIZE {
        var entry, _ := ReadEntry(record, maxAttributes);
        kept := [entry];
      }
    }
  }

  /** One visited sector splits off the front of the scan. */
  lemma KeptStep(sectors: Sectors, i: nat, end: nat, maxAttributes: nat, prefix: seq<Entry>)
    requires i < end
    ensures var record := sectors(i, 2);
      prefix + Kept(sectors, Visited(i, end), maxAttributes)
      == (prefix + (if Usable(record) then [EntryOf(record, maxAttributes).0] else []))
         + Kept(sectors, Visited(i + 2, end), maxAttributes)
  {
    assert Visited(i, end) == [i] + Visited(i + 2, end);
    assert Visited(i, end)[1..] == Visited(i + 2, end);
  }

  /** ReadMFT visits every second sector from the start of the region up to its end. */
  lemma {:induction false} VisitedShape(from: nat, end: nat)
    ensures |Visited(from, end)| == if from >= end then 0 else (end - from + 1) / 2
    ensures forall k :: 0 <= k < |Visited(from, end)| ==>
      Visited(from, end)[k] == from + 2 * k && Visited(from, end)[k] < end
    decreases end - from
  {
    if from < end {
      VisitedShape(from + 2, end);
      var rest := Visited(from + 2, end);
      assert Visited(from, end) == [from] + rest;
      forall k | 0 <= k < |Visited(from, end)|
        ensures Visited(from, end)[k] == from + 2 * k && Visited(from, end)[k] < end
      {
        if k > 0 {
          assert Visited(from, end)[k] == rest[k - 1];
        }
      }
    }
  }

  /** A region that lies below 2^32 is read as 250 two-sector records; one whose end
      wraps past 2^32 is not read at all. */
  lemma MftScanSize(start: nat)
    requires start < TWO_32
    ensures start + MFT_SCAN < TWO_32 ==> |Visited(start, (start + MFT_SCAN) % TWO_32)| == 250
    ensures start + MFT_SCAN >= TWO_32 ==> Visited(start, (start + MFT_SCAN) % TWO_32) == []
  {
    VisitedShape(start, (start + MFT_SCAN) % TWO_32);
  }

  /** The tree, when built, is linked to the entries and the current path lies in it. */
  predicate TreeValid(entries: seq<Entry>, tree: Option<Node>, current: seq<nat>) {
    match tree
    case None => current == []
    case Some(root) => Linked(entries, root) && PathIn(root, current)
  }

  /** Appending entries keeps a valid tree valid. */
  lemma TreeValidExtends(entries: seq<Entry>, more: seq<Entry>, tree: Option<Node>, current: seq<nat>)
    requires TreeValid(entries, tree, current)
    ensures TreeValid(entries + more, tree, current)
  {
    if tree.Some? {
      LinkedExtends(entries, more, tree.value);
    }
  }

  /** ReadMFT's loop: sectors from, from + 2, ... below end are read as two-sector
      records, and the entries of the records in use are collected in order. */
  method ScanRecords(sectors: Sectors, from: nat, end: nat, maxAttributes: nat) returns (kept: seq<Entry>)
    ensures kept == Kept(sectors, Visited(from, end), maxAttributes)
  {
    kept := [];
    var i := from;
    while i < end
      invariant kept + Kept(sectors, Visited(i, end), maxAttributes) == Kept(sectors, Visited(from, end), maxAttributes)
      decreases end - i
    {
      var record := ReadRecord(sectors(i, 2), maxAttributes);
      KeptStep(sectors, i, end, maxAttributes, kept);
      kept := kept + record;
      i := i + 2;
    }
    assert Visited(i, end) == [];
    assert kept + [] == kept;
  }

  class Volume {
    var drivePath: string
    var bytePerSector: nat
    var sectorPerCluster: nat
    var startClusterOfMFT: nat
    var bytePerEntry: nat
    var mftEntries: seq<Entry>
    var mftEntriesNode: seq<Node>
    /** The tree built by ConstructEntryTree, once it has run. */
    var tree: Option<Node>
    /** currentRoot, as the child positions leading to it from the root. */
    var current: seq<nat>

    /** The tree refers only to entries of the list, and the current path lies in it. */
    predicate Valid()
      reads this
    {
      TreeValid(mftEntries, tree, current)
    }

    constructor (path: string)
      ensures drivePath == path && bytePerSector == 512 && bytePerEntry == 1024
      ensures mftEntries == [] && tree == None && current == [] && Valid()
    {
      drivePath := path;
      bytePerSector := 512;
      bytePerEntry := 1024;
      sectorPerCluster := 0;
      startClusterOfMFT := 0;
      mftEntries := [];
      mftEntriesNode := [];
      tree := None;
      current := [];
    }

    /** ReadBPB: the three fields are decoded from the first sector; one too short to hold
        them leaves the volume as it was. */
    method ReadBPB(sectors: Sectors) returns (ok: bool)
      modifies this`bytePerSector, this`sectorPerCluster, this`startClusterOfMFT
      ensures ok <==> |sectors(0, 1)| >= BPB_SIZE
      ensures ok ==> var bpb := sectors(0, 1);
        bytePerSector == Field(bpb, 0x0B, 2) && sectorPerCluster == Field(bpb, 0x0D, 1)
        && startClusterOfMFT == Field(bpb, 0x30, 8) % TWO_32
      ensures !ok ==>
        (bytePerSector == old(bytePerSector) && sectorPerCluster == old(sectorPerCluster)
         && startClusterOfMFT == old(startClusterOfMFT))
    {
      var bpb := sectors(0, 1);
      if |bpb| < BPB_SIZE {
        return false;
      }
      bytePerSector := Convert2LE(bpb, 0x0B, 2);
      sectorPerCluster := Convert2LE(bpb, 0x0D, 1);
      var start := Convert2LE(bpb, 0x30, 8);
      startClusterOfMFT := start % TWO_32;
      ok := true;
    }

    /** Cluster2Sector, in 32-bit arithmetic. */
    function Cluster2Sector(cluster: nat): (sector: nat)
      reads this`sectorPerCluster
      ensures sector < TWO_32
      ensures cluster * sectorPerCluster < TWO_32 ==> sector == cluster * sectorPerCluster
    {
      (cluster * sectorPerCluster) % TWO_32
    }

    /** The first sector of the scanned MFT region. */
    function MftStart(): nat
      reads this`sectorPerCluster, this`startClusterOfMFT
    {
      Cluster2Sector(startClusterOfMFT)
    }

    /** ReadMFT: every second sector of the region is read as a record, and each record
        that is in use is decoded and appended. */
    method ReadMFT(sectors: Sectors, maxAttributes: nat)
      requires Valid()
      modifies this`mftEntries
      ensures mftEntries == old(mftEntries)
        + Kept(sectors, Visited(MftStart(), (MftStart() + MFT_SCAN) % TWO_32), maxAttributes)
      ensures Valid()
    {
      var startSector := Cluster2Sector(startClusterOfMFT);
      var endSector := (startSector + MFT_SCAN) % TWO_32;
      var kept := ScanRecords(sectors, startSector, endSector, maxAttributes);
      TreeValidExtends(mftEntries, kept, tree, current);
      mftEntries := mftEntries + kept;
    }

    /** ConstructEntryTree: entry 5 is the root, its children are the helper's nodes, and
        the current directory is the root. */
    method ConstructEntryTree(depth: nat)
      requires |mftEntries| > ROOT_ENTRY
      modifies this`mftEntriesNode, this`tree, this`current
      ensures mftEntriesNode == Subtrees(mftEntries, mftEntries[ROOT_ENTRY].id, depth, |mftEntries|)
      ensures tree == Some(Node(ROOT_ENTRY, FileNameOf(mftEntries[ROOT_ENTRY].attributes), mftEntriesNode))
      ensures current == [] && Valid()
    {
      var rootEntry := mftEntries[ROOT_ENTRY];
      var rootName := GetFileName(rootEntry);
      mftEntriesNode := ConstructEntryTreeHelper(rootEntry.id, mftEntries, depth);
      var root := Node(ROOT_ENTRY, rootName, mftEntriesNode);
      forall c | c in root.children
        ensures c.entry < |mftEntries| && IsChild(mftEntries, c.entry, mftEntries[ROOT_ENTRY].id)
                && Linked(mftEntries, c)
      {
        var k :| 0 <= k < |mftEntriesNode| && mftEntriesNode[k] == c;
      }
      tree := Some(root);
      current := [];
    }

    /** The node currentRoot points to. */
    function CurrentRoot(): Node
      reads this
      requires Valid() && tree.Some?
    {
      At(tree.value, current)
    }

    /** FindEntryNode: the first child of the current directory bearing the name is entered
        when it is a directory and shown when it is a file. */
    method FindEntryNode(name: string) returns (outcome: Outcome)
      requires Valid() && tree.Some?
      modifies this`current
      ensures Valid()
      ensures var children := ChildrenAt(mftEntries, tree.value, old(current));
        var k := FirstNamed(mftEntries, children, name);
        if k == |children| then outcome == NotFound && current == old(current)
        else
          var entry := mftEntries[children[k].entry];
          if IsDirectory(entry) then outcome == ChangedDirectory && current == old(current) + [k]
          else if IsFile(entry) then outcome == ShowText(TextFileData(entry.attributes)) && current == old(current)
          else outcome == NotReadable && current == old(current)
    {
      var children := ChildrenAt(mftEntries, tree.value, current);
      var k := FindChild(mftEntries, children, name);
      if k == |children| {
        return NotFound;
      }
      var entry := mftEntries[children[k].entry];
      var flags := GetStandardInformationFlags(entry);
      if flags == 0x0000 {
        StepInto(tree.value, current, k);
        current := current + [k];
        return ChangedDirectory;
      } else if flags == 0x0020 {
        var text := GetTextFileData(entry);
        return ShowText(text);
      }
      return NotReadable;
    }

    /** Back to parent directory: currentRoot moves to its parent unless it is the root. */
    method BackToParent() returns (moved: bool)
      requires Valid() && tree.Some?
      modifies this`current
      ensures Valid()
      ensures moved <==> old(current) != []
      ensures moved ==> current == old(current)[..|old(current)| - 1]
      ensures moved ==> var parent, k := At(tree.value, current), old(current)[|old(current)| - 1];
        k < |parent.children| && parent.children[k] == At(tree.value, old(current))
      ensures !moved ==> current == old(current)
    {
      if current == [] {
        return false;
      }
      StepBack(tree.value, current);
      current := current[..|current| - 1];
      return true;
    }
  }

  /** The position of the first child whose entry's name is `name`, or the number of
      children when none is. */
  function FirstNamed(entries: seq<Entry>, children: seq<Node>, name: string): (k: nat)
    requires forall j :: 0 <= j < |children| ==> children[j].entry < |entries|
    ensures k <= |children|
    ensures k < |children| ==> FileNameOf(entries[children[k].entry].attributes) == name
    ensures forall j :: 0 <= j < k ==> FileNameOf(entries[children[j].entry].attributes) != name
    decreases |children|
  {
    if children == [] then 0
    else if FileNameOf(entries[children[0].entry].attributes) == name then 0
    else 1 + FirstNamed(entries, children[1..], name)
  }

  /** The children of the node a path reaches in a linked tree; each refers to an entry
      of the list. */
  function ChildrenAt(entries: seq<Entry>, root: Node, path: seq<nat>): (children: seq<Node>)
    requires Linked(entries, root) && PathIn(root, path)
    ensures children == At(root, path).children
    ensures forall j :: 0 <= j < |children| ==> children[j].entry < |entries|
  {
    LinkedAlongPath(entries, root, path);
    ChildrenInRange(entries, At(root, path));
    At(root, path).children
  }

  /** The loop of FindEntryNode over the children of the current directory. */
  method FindChild(entries: seq<Entry>, children: seq<Node>, name: string) returns (k: nat)
    requires forall j :: 0 <= j < |children| ==> children[j].entry < |entries|
    ensures k == FirstNamed(entries, children, name)
  {
    k := 0;
    while k < |children|
      invariant k <= |children|
      invariant forall j :: 0 <= j < k ==> FileNameOf(entries[children[j].entry].attributes) != name
    {
      var childName := GetFileName(entries[children[k].entry]);
      if childName == name {
        return;
      }
      k := k + 1;
    }
  }

  lemma ChildrenInRange(entries: seq<Entry>, node: Node)
    requires Linked(entries, node)
    ensures forall j :: 0 <= j < |node.children| ==> node.children[j].entry < |entries|
  {
    forall j | 0 <= j < |node.children|
      ensures node.children[j].entry < |entries|
    {
      assert node.children[j] in node.children;
    }
  }

  /** Entering a directory and going back returns to where the walk started, and the
      directory entered is the first child bearing the name. */
  lemma EnterThenBack(root: Node, path: seq<nat>, k: nat)
    requires PathIn(root, path) && k < |At(root, path).children|
    ensures PathIn(root, path + [k])
    ensures (path + [k])[..|path + [k]| - 1] == path
    ensures At(root, path + [k]) == At(root, path).children[k]
  {
    StepInto(root, path, k);
    assert (path + [k])[..|path|] == path;
  }
}
