// The directory tree of the NTFS explorer (Source/NTFS/Entry.h): each entry becomes a node
// under the entry its $FILE_NAME names as parent. A node refers to its entry by its index
// in the MFT entry list; its parent is the node whose children hold it.

module NtfsTree {
  import opened Wrappers
  import opened NtfsEntry
  import opened NtfsUtility

  datatype Node = Node(entry: nat, name: string, children: seq<Node>)

  /** EntryNode::IsDirectory: the $STANDARD_INFORMATION flags are all clear, the value the flag printer calls "Directory". */
  function IsDirectory(e: Entry): (r: bool)
    ensures r <==> FlagsName(StandardInformationFlags(e.attributes)) == "Directory"
  {
    StandardInformationFlags(e.attributes) == 0x0000
  }

  /** EntryNode::IsFile: the flags are exactly the archive bit, the value the flag printer calls "Archive". */
  function IsFile(e: Entry): (r: bool)
    ensures r <==> FlagsName(StandardInformationFlags(e.attributes)) == "Archive"
  {
    StandardInformationFlags(e.attributes) == 0x0020
  }

  /** No entry is both a directory and a file. */
  lemma DirectoryIsNotFile(e: Entry)
    ensures !(IsDirectory(e) && IsFile(e))
  {
  }

  /** The entry at index i is placed under the entry whose id is `id`: its parent reference
      names `id` and differs from its own id. */
  predicate IsChild(entries: seq<Entry>, i: nat, id: nat)
    requires i < |entries|
  {
    ParentDirectory(entries[i].attributes) == id
    && ParentDirectory(entries[i].attributes) != entries[i].id
  }

  /** FindParentNode: the position of the first node whose entry has the id, or None. */
  method FindParentNode(parentID: nat, nodes: seq<Node>, entries: seq<Entry>) returns (found: Option<nat>)
    requires forall k :: 0 <= k < |nodes| ==> nodes[k].entry < |entries|
    ensures found.Some? ==>
      found.value < |nodes| && entries[nodes[found.value].entry].id == parentID
      && forall k :: 0 <= k < found.value ==> entries[nodes[k].entry].id != parentID
    ensures found.None? ==> forall k :: 0 <= k < |nodes| ==> entries[nodes[k].entry].id != parentID
  {
    for k := 0 to |nodes|
      invariant forall j :: 0 <= j < k ==> entries[nodes[j].entry].id != parentID
    {
      if entries[nodes[k].entry].id == parentID {
        return Some(k);
      }
    }
    return None;
  }

  /** The nodes ConstructEntryTreeHelper builds under the entry with id `id` from the entries
      before `upto`, each with its own subtree; `depth` bounds the recursion. */
  function Subtrees(entries: seq<Entry>, id: nat, depth: nat, upto: nat): (r: seq<Node>)
    requires upto <= |entries|
    ensures forall k :: 0 <= k < |r| ==>
      r[k].entry < upto && IsChild(entries, r[k].entry, id)
      && r[k].name == FileNameOf(entries[r[k].entry].attributes)
    ensures forall k :: 0 <= k < |r| ==> Linked(entries, r[k])
    decreases depth, upto
  {
    if depth == 0 || upto == 0 then []
    else
      var before := Subtrees(entries, id, depth, upto - 1);
      var i := upto - 1;
      if IsChild(entries, i, id) then
        var grandChildren := Subtrees(entries, entries[i].id, depth - 1, |entries|);
        before + [Node(i, FileNameOf(entries[i].attributes), grandChildren)]
      else before
  }

  /** Every node of the tree refers to an entry of the list, carries that entry's name, and
      its children are entries placed under it. */
  predicate Linked(entries: seq<Entry>, node: Node)
    decreases node
  {
    node.entry < |entries|
    && node.name == FileNameOf(entries[node.entry].attributes)
    && forall c :: c in node.children ==>
         c.entry < |entries| && IsChild(entries, c.entry, entries[node.entry].id) && Linked(entries, c)
  }

  function Indices(nodes: seq<Node>): (r: seq<nat>)
    ensures |r| == |nodes| && forall k :: 0 <= k < |r| ==> r[k] == nodes[k].entry
  {
    seq(|nodes|, k requires 0 <= k < |nodes| => nodes[k].entry)
  }

  /** The indices below `upto` of the entries placed under `id`, in list order. */
  function ChildIndices(entries: seq<Entry>, id: nat, upto: nat): seq<nat>
    requires upto <= |entries|
    decreases upto
  {
    if upto == 0 then []
    else ChildIndices(entries, id, upto - 1) + (if IsChild(entries, upto - 1, id) then [upto - 1] else [])
  }

  /** With recursion depth left, the helper returns a node for exactly the entries placed
      under `id`, in the order of the entry list. */
  lemma {:induction false} SubtreesAreChildren(entries: seq<Entry>, id: nat, depth: nat, upto: nat)
    requires upto <= |entries| && depth > 0
    ensures Indices(Subtrees(entries, id, depth, upto)) == ChildIndices(entries, id, upto)
    decreases upto
  {
    if upto > 0 {
      SubtreesAreChildren(entries, id, depth, upto - 1);
      var before := Subtrees(entries, id, depth, upto - 1);
      var r := Subtrees(entries, id, depth, upto);
      if IsChild(entries, upto - 1, id) {
        assert Indices(r) == Indices(before) + [upto - 1];
      } else {
        assert r == before;
      }
    }
  }

  /** ConstructEntryTreeHelper: one pass over the entries, recursing into each child found. */
  method ConstructEntryTreeHelper(rootId: nat, entries: seq<Entry>, depth: nat) returns (children: seq<Node>)
    ensures children == Subtrees(entries, rootId, depth, |entries|)
    decreases depth
  {
    children := [];
    if depth == 0 {
      return;
    }
    for i := 0 to |entries|
      invariant children == Subtrees(entries, rootId, depth, i)
    {
      var parent := GetParentDirectory(entries[i]);
      if parent == rootId && parent != entries[i].id {
        var name := GetFileName(entries[i]);
        var grandChildren := ConstructEntryTreeHelper(entries[i].id, entries, depth - 1);
        children := children + [Node(i, name, grandChildren)];
      }
    }
  }

  /** The node reached from `root` by following the child positions in `path`. */
  function At(root: Node, path: seq<nat>): Node
    requires PathIn(root, path)
    decreases |path|
  {
    if path == [] then root else At(root.children[path[0]], path[1..])
  }

  predicate PathIn(root: Node, path: seq<nat>)
    decreases |path|
  {
    path == [] || (path[0] < |root.children| && PathIn(root.children[path[0]], path[1..]))
  }

  /** A path extended by one position is valid exactly when the position names a child of
      the node the path reaches, and it then reaches that child. */
  lemma {:induction false} StepInto(root: Node, path: seq<nat>, k: nat)
    ensures PathIn(root, path + [k]) <==> (PathIn(root, path) && k < |At(root, path).children|)
    ensures PathIn(root, path + [k]) ==> At(root, path + [k]) == At(root, path).children[k]
    decreases |path|
  {
    if path != [] {
      assert (path + [k])[0] == path[0];
      assert (path + [k])[1..] == path[1..] + [k];
      if path[0] < |root.children| {
        StepInto(root.children[path[0]], path[1..], k);
      }
    }
  }

  /** Dropping the last step of a valid path gives the parent, which holds the node. */
  lemma StepBack(root: Node, path: seq<nat>)
    requires PathIn(root, path) && path != []
    ensures PathIn(root, path[..|path| - 1])
    ensures path[|path| - 1] < |At(root, path[..|path| - 1]).children|
    ensures At(root, path[..|path| - 1]).children[path[|path| - 1]] == At(root, path)
  {
    var p, k := path[..|path| - 1], path[|path| - 1];
    assert path == p + [k];
    StepInto(root, p, k);
  }

  /** Every node on a valid path of a linked tree is itself linked. */
  lemma {:induction false} LinkedAlongPath(entries: seq<Entry>, root: Node, path: seq<nat>)
    requires Linked(entries, root) && PathIn(root, path)
    ensures Linked(entries, At(root, path))
    decreases |path|
  {
    if path != [] {
      assert root.children[path[0]] in root.children;
      LinkedAlongPath(entries, root.children[path[0]], path[1..]);
    }
  }

  /** Entries appended to the list leave a linked tree linked. */
  lemma {:induction false} LinkedExtends(entries: seq<Entry>, more: seq<Entry>, node: Node)
    requires Linked(entries, node)
    ensures Linked(entries + more, node)
    decreases node
  {
    var all := entries + more;
    assert all[node.entry] == entries[node.entry];
    forall c | c in node.children
      ensures c.entry < |all| && IsChild(all, c.entry, all[node.entry].id) && Linked(all, c)
    {
      assert all[c.entry] == entries[c.entry];
      LinkedExtends(entries, more, c);
    }
  }
}
